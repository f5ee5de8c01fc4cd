/** The handler chain: conflict blocks move from the lists of pending blocks to the recorded resolutions
    (include/mergebot/core/HandlerChain.h, include/mergebot/core/handler/SAHandler.h, src/core/sa_utility.cpp). */
module HandlerChain {
  import opened Seqs

  datatype Block = Block(index: int, resolved: bool)

  datatype File = File(name: string, blocks: seq<Block>, resolved: bool)

  /** The style and text based handlers resolve the blocks their heuristics accept; the others leave the lists alone. */
  datatype Handler =
    | Resolver(skip: bool, accepts: (string, int) -> bool)
    | Observer(skip: bool)

  /** Resolution files: the indices recorded in each. A missing or unreadable file is not in the map. */
  type Results = map<string, seq<int>>

  function Recorded(results: Results, key: string): seq<int> {
    if key in results then results[key] else []
  }

  function Indices(blocks: seq<Block>): seq<int> {
    if blocks == [] then [] else Indices(blocks[..|blocks| - 1]) + [blocks[|blocks| - 1].index]
  }

  // ---------- one file ----------

  /** The block loop sets the flags of accepted blocks. */
  function Flag(accepts: (string, int) -> bool, name: string, blocks: seq<Block>): seq<Block> {
    if blocks == [] then []
    else
      var b := blocks[|blocks| - 1];
      Flag(accepts, name, blocks[..|blocks| - 1]) + [if accepts(name, b.index) then b.(resolved := true) else b]
  }

  /** The indices pushed to ResolvedBlocks. */
  function Accepted(accepts: (string, int) -> bool, name: string, blocks: seq<Block>): seq<int> {
    if blocks == [] then []
    else
      var rest, b := Accepted(accepts, name, blocks[..|blocks| - 1]), blocks[|blocks| - 1];
      if accepts(name, b.index) then rest + [b.index] else rest
  }

  /** tidyUpConflictBlocks keeps the unresolved blocks. */
  function Unresolved(blocks: seq<Block>): seq<Block> {
    if blocks == [] then []
    else
      var rest, b := Unresolved(blocks[..|blocks| - 1]), blocks[|blocks| - 1];
      if b.resolved then rest else rest + [b]
  }

  ghost predicate NoneResolved(blocks: seq<Block>) {
    forall k :: 0 <= k < |blocks| ==> !blocks[k].resolved
  }

  ghost predicate AllResolved(blocks: seq<Block>) {
    forall k :: 0 <= k < |blocks| ==> blocks[k].resolved
  }

  /** Nothing is lost and nothing is counted twice within a file. */
  lemma {:induction false} SplitConserves(accepts: (string, int) -> bool, name: string, blocks: seq<Block>)
    requires NoneResolved(blocks)
    ensures multiset(Accepted(accepts, name, blocks)) + multiset(Indices(Unresolved(Flag(accepts, name, blocks))))
            == multiset(Indices(blocks))
  {
    if blocks != [] {
      var rest, b := blocks[..|blocks| - 1], blocks[|blocks| - 1];
      SplitConserves(accepts, name, rest);
      var f, x := Flag(accepts, name, rest), if accepts(name, b.index) then b.(resolved := true) else b;
      assert (f + [x])[..|f|] == f;
      var u := Unresolved(f);
      assert (u + [x])[..|u|] == u;
      AddLeft(Accepted(accepts, name, rest), Indices(u), Indices(rest), b.index);
    }
  }

  lemma AddLeft(left: seq<int>, right: seq<int>, all: seq<int>, x: int)
    requires multiset(left) + multiset(right) == multiset(all)
    ensures multiset(left + [x]) + multiset(right) == multiset(all + [x])
    ensures multiset(left) + multiset(right + [x]) == multiset(all + [x])
  {
    OneMore(left, x);
    OneMore(right, x);
    OneMore(all, x);
  }

  lemma OneMore(s: seq<int>, x: int)
    ensures multiset(s + [x]) == multiset(s) + multiset{x}
  {
  }

  lemma {:induction false} FlagShape(accepts: (string, int) -> bool, name: string, blocks: seq<Block>)
    requires NoneResolved(blocks)
    ensures |Flag(accepts, name, blocks)| == |blocks|
    ensures Accepted(accepts, name, blocks) == [] <==> NoneResolved(Flag(accepts, name, blocks))
    ensures Accepted(accepts, name, blocks) == [] ==> Flag(accepts, name, blocks) == blocks
  {
    if blocks != [] {
      FlagShape(accepts, name, blocks[..|blocks| - 1]);
      assert blocks == blocks[..|blocks| - 1] + [blocks[|blocks| - 1]];
      var f := Flag(accepts, name, blocks);
      assert f[..|blocks| - 1] == Flag(accepts, name, blocks[..|blocks| - 1]);
      if Accepted(accepts, name, blocks) != [] && Accepted(accepts, name, blocks[..|blocks| - 1]) != [] {
        var k :| 0 <= k < |blocks| - 1 && f[..|blocks| - 1][k].resolved;
        assert f[k].resolved;
      } else if Accepted(accepts, name, blocks) != [] {
        assert f[|blocks| - 1].resolved;
      }
    }
  }

  lemma {:induction false} UnresolvedShape(blocks: seq<Block>)
    ensures NoneResolved(Unresolved(blocks))
    ensures AllResolved(blocks) ==> Unresolved(blocks) == []
    ensures NoneResolved(blocks) ==> Unresolved(blocks) == blocks
  {
    if blocks != [] {
      UnresolvedShape(blocks[..|blocks| - 1]);
      assert blocks == blocks[..|blocks| - 1] + [blocks[|blocks| - 1]];
    }
  }

  // ---------- lists of files ----------

  /** tidyUpConflictFiles: resolved files go, the others keep their unresolved blocks. */
  function Tidied(files: seq<File>): seq<File> {
    if files == [] then []
    else
      var rest, f := Tidied(files[..|files| - 1]), files[|files| - 1];
      if f.resolved then rest else rest + [f.(blocks := Unresolved(f.blocks))]
  }

  /** The pending indices of the files whose names are chosen, in order. */
  ghost function Pending(files: seq<File>, chosen: string -> bool): seq<int> {
    if files == [] then []
    else
      var f := files[|files| - 1];
      Pending(files[..|files| - 1], chosen) + if chosen(f.name) then Indices(f.blocks) else []
  }

  /** The same, counting only blocks that are not flagged. */
  ghost function Open(files: seq<File>, chosen: string -> bool): seq<int> {
    if files == [] then []
    else
      var f := files[|files| - 1];
      Open(files[..|files| - 1], chosen) + if chosen(f.name) then Indices(Unresolved(f.blocks)) else []
  }

  /** The indices a handler accepts in those files. */
  ghost function Taken(accepts: (string, int) -> bool, files: seq<File>, chosen: string -> bool): seq<int> {
    if files == [] then []
    else
      var f := files[|files| - 1];
      Taken(accepts, files[..|files| - 1], chosen) + if chosen(f.name) then Accepted(accepts, f.name, f.blocks) else []
  }

  /** The files that share a resolution file, and the files of one name. */
  ghost function SharesKey(dest: string -> string, key: string): string -> bool {
    name => dest(name) == key
  }

  ghost function HasName(name: string): string -> bool {
    other => other == name
  }

  function Count(files: seq<File>): nat {
    if files == [] then 0 else Count(files[..|files| - 1]) + |files[|files| - 1].blocks|
  }

  /** Between handlers no pending block is flagged. */
  ghost predicate AllOpen(files: seq<File>) {
    forall k :: 0 <= k < |files| ==> NoneResolved(files[k].blocks)
  }

  ghost predicate FlagsFit(files: seq<File>) {
    forall k :: 0 <= k < |files| && files[k].resolved ==> AllResolved(files[k].blocks)
  }

  lemma {:induction false} TidiedIsOpen(files: seq<File>)
    ensures AllOpen(Tidied(files))
  {
    if files != [] {
      TidiedIsOpen(files[..|files| - 1]);
      UnresolvedShape(files[|files| - 1].blocks);
    }
  }

  lemma OneMoreFile(files: seq<File>, f: File, chosen: string -> bool)
    ensures Pending(files + [f], chosen) == Pending(files, chosen) + if chosen(f.name) then Indices(f.blocks) else []
  {
    assert (files + [f])[..|files|] == files;
  }

  lemma {:induction false} TidyKeepsOpen(files: seq<File>, chosen: string -> bool)
    requires FlagsFit(files)
    ensures Pending(Tidied(files), chosen) == Open(files, chosen)
  {
    if files != [] {
      var init, f := files[..|files| - 1], files[|files| - 1];
      TidyKeepsOpen(init, chosen);
      UnresolvedShape(f.blocks);
      OneMoreFile(Tidied(init), f.(blocks := Unresolved(f.blocks)), chosen);
    }
  }

  // ---------- the account of an index ----------

  /** Recorded and pending together, for one resolution file. */
  ghost function Account(dest: string -> string, files: seq<File>, results: Results, key: string): multiset<int> {
    multiset(Recorded(results, key)) + multiset(Pending(files, SharesKey(dest, key)))
  }

  /** From one state of the lists to a later one: every index is still accounted for exactly as often as before, and
      records only grow at their end. */
  ghost predicate Carries(dest: string -> string, files0: seq<File>, results0: Results, files: seq<File>,
                          results: Results) {
    AllOpen(files) &&
    (forall key :: Account(dest, files, results, key) == Account(dest, files0, results0, key)) &&
    (forall key :: Recorded(results0, key) <= Recorded(results, key))
  }

  // ---------- a handler at work ----------

  /** The file after the block loop and the flag update (StyleBasedHandler.cpp, lines 53-120). */
  function Processed(accepts: (string, int) -> bool, f: File): File {
    var blocks := Flag(accepts, f.name, f.blocks);
    File(f.name, blocks, forall k :: 0 <= k < |blocks| ==> blocks[k].resolved)
  }

  function ProcessedAll(accepts: (string, int) -> bool, files: seq<File>): seq<File> {
    if files == [] then []
    else ProcessedAll(accepts, files[..|files| - 1]) + [Processed(accepts, files[|files| - 1])]
  }

  /** The resolution files after every file's accepted indices have been appended to its own. */
  function Appended(accepts: (string, int) -> bool, dest: string -> string, results: Results,
                    files: seq<File>): Results {
    if files == [] then results
    else
      var rest, f := Appended(accepts, dest, results, files[..|files| - 1]), files[|files| - 1];
      var indices := Accepted(accepts, f.name, f.blocks);
      if indices == [] then rest else rest[dest(f.name) := Recorded(rest, dest(f.name)) + indices]
  }

  lemma {:induction false} AppendedAt(accepts: (string, int) -> bool, dest: string -> string, results: Results,
                                      files: seq<File>, key: string)
    ensures Recorded(Appended(accepts, dest, results, files), key) ==
      Recorded(results, key) + Taken(accepts, files, SharesKey(dest, key))
  {
    if files != [] {
      var init, f := files[..|files| - 1], files[|files| - 1];
      AppendedAt(accepts, dest, results, init, key);
      AppendAtEnd(Recorded(results, key), Taken(accepts, init, SharesKey(dest, key)),
        Accepted(accepts, f.name, f.blocks));
    }
  }

  lemma AppendAtEnd(a: seq<int>, b: seq<int>, c: seq<int>)
    ensures a + b + c == a + (b + c) && a + b + [] == a + b && a + (b + []) == a + b
  {
  }

  lemma Regroup(a: seq<int>, a': seq<int>, b: seq<int>, b': seq<int>, c: seq<int>, c': seq<int>)
    requires multiset(a) + multiset(b) == multiset(c) && multiset(a') + multiset(b') == multiset(c')
    ensures multiset(a + a') + multiset(b + b') == multiset(c + c')
  {
    assert multiset(a + a') == multiset(a) + multiset(a');
    assert multiset(b + b') == multiset(b) + multiset(b');
    assert multiset(c + c') == multiset(c) + multiset(c');
  }

  /** What is taken and what stays open are what was pending. */
  lemma {:induction false} HandlerConserves(accepts: (string, int) -> bool, files: seq<File>, chosen: string -> bool)
    requires AllOpen(files)
    ensures multiset(Taken(accepts, files, chosen)) + multiset(Open(ProcessedAll(accepts, files), chosen)) ==
      multiset(Pending(files, chosen))
  {
    if files != [] {
      var init, f := files[..|files| - 1], files[|files| - 1];
      HandlerConserves(accepts, init, chosen);
      OpenOneMore(accepts, init, f, chosen);
      if chosen(f.name) {
        SplitConserves(accepts, f.name, f.blocks);
        Regroup(Taken(accepts, init, chosen), Accepted(accepts, f.name, f.blocks),
                Open(ProcessedAll(accepts, init), chosen), Indices(Unresolved(Flag(accepts, f.name, f.blocks))),
                Pending(init, chosen), Indices(f.blocks));
      } else {
        Regroup(Taken(accepts, init, chosen), [], Open(ProcessedAll(accepts, init), chosen), [], Pending(init, chosen),
          []);
      }
    }
  }

  lemma OpenOneMore(accepts: (string, int) -> bool, init: seq<File>, f: File, chosen: string -> bool)
    ensures Open(ProcessedAll(accepts, init) + [Processed(accepts, f)], chosen) ==
      Open(ProcessedAll(accepts, init), chosen) +
        if chosen(f.name) then Indices(Unresolved(Flag(accepts, f.name, f.blocks))) else []
  {
    var before := ProcessedAll(accepts, init);
    assert (before + [Processed(accepts, f)])[..|before|] == before;
  }

  lemma {:induction false} ProcessedShape(accepts: (string, int) -> bool, files: seq<File>)
    ensures |ProcessedAll(accepts, files)| == |files|
    ensures forall k :: 0 <= k < |files| ==> ProcessedAll(accepts, files)[k] == Processed(accepts, files[k])
  {
    if files != [] {
      ProcessedShape(accepts, files[..|files| - 1]);
    }
  }

  ghost predicate NothingAccepted(accepts: (string, int) -> bool, files: seq<File>) {
    forall k :: 0 <= k < |files| ==> Accepted(accepts, files[k].name, files[k].blocks) == []
  }

  /** The files after a handler: tidied if anything was accepted. */
  function After(accepts: (string, int) -> bool, files: seq<File>, needShrink: bool): seq<File> {
    if needShrink then Tidied(ProcessedAll(accepts, files)) else ProcessedAll(accepts, files)
  }

  lemma AfterIsOpen(accepts: (string, int) -> bool, files: seq<File>, needShrink: bool)
    requires AllOpen(files) && (!needShrink ==> NothingAccepted(accepts, files))
    ensures AllOpen(After(accepts, files, needShrink))
  {
    ProcessedShape(accepts, files);
    TidiedIsOpen(ProcessedAll(accepts, files));
    forall k | 0 <= k < |files| && !needShrink ensures NoneResolved(ProcessedAll(accepts, files)[k].blocks) {
      FlagShape(accepts, files[k].name, files[k].blocks);
    }
  }

  lemma {:induction false} OpenIsPending(files: seq<File>, chosen: string -> bool)
    requires AllOpen(files)
    ensures Open(files, chosen) == Pending(files, chosen)
  {
    if files != [] {
      OpenIsPending(files[..|files| - 1], chosen);
      UnresolvedShape(files[|files| - 1].blocks);
    }
  }

  /** What is pending after a handler is what it left open. */
  lemma AfterPending(accepts: (string, int) -> bool, files: seq<File>, needShrink: bool, chosen: string -> bool)
    requires AllOpen(files) && (!needShrink ==> NothingAccepted(accepts, files))
    ensures Pending(After(accepts, files, needShrink), chosen) == Open(ProcessedAll(accepts, files), chosen)
  {
    if needShrink {
      ProcessedShape(accepts, files);
      TidyKeepsOpen(ProcessedAll(accepts, files), chosen);
    } else {
      AfterIsOpen(accepts, files, needShrink);
      OpenIsPending(ProcessedAll(accepts, files), chosen);
    }
  }

  lemma SumThree(recorded: seq<int>, taken: seq<int>, open: seq<int>, all: seq<int>)
    requires multiset(taken) + multiset(open) == multiset(all)
    ensures multiset(recorded + taken) + multiset(open) == multiset(recorded) + multiset(all)
  {
    assert multiset(recorded + taken) == multiset(recorded) + multiset(taken);
  }

  lemma Outcome(accepts: (string, int) -> bool, dest: string -> string, files: seq<File>, results: Results,
                needShrink: bool)
    requires AllOpen(files) && (!needShrink ==> NothingAccepted(accepts, files))
    ensures Carries(dest, files, results, After(accepts, files, needShrink), Appended(accepts, dest, results, files))
  {
    var files', results' := After(accepts, files, needShrink), Appended(accepts, dest, results, files);
    AfterIsOpen(accepts, files, needShrink);
    forall key ensures Account(dest, files', results', key) == Account(dest, files, results, key) &&
      Recorded(results, key) <= Recorded(results', key) {
      var chosen := SharesKey(dest, key);
      AppendedAt(accepts, dest, results, files, key);
      AfterPending(accepts, files, needShrink, chosen);
      HandlerConserves(accepts, files, chosen);
      SumThree(Recorded(results, key), Taken(accepts, files, chosen), Open(ProcessedAll(accepts, files), chosen),
        Pending(files, chosen));
    }
  }

  // ---------- how many ----------

  /** All recorded resolutions. */
  ghost function Total(results: Results): nat
    decreases |results|
  {
    if results == map[] then 0
    else
      var key :| key in results;
      |results[key]| + Total(results - {key})
  }

  lemma {:induction false} TotalRemove(results: Results, key: string)
    requires key in results
    ensures Total(results) == |results[key]| + Total(results - {key})
    decreases |results|
  {
    var k :| k in results && Total(results) == |results[k]| + Total(results - {k});
    if k != key {
      TotalRemove(results - {k}, key);
      TotalRemove(results - {key}, k);
      assert results - {k} - {key} == results - {key} - {k};
    }
  }

  lemma TotalAppend(results: Results, key: string, indices: seq<int>)
    ensures Total(results[key := Recorded(results, key) + indices]) == Total(results) + |indices|
  {
    var more := results[key := Recorded(results, key) + indices];
    TotalRemove(more, key);
    assert more - {key} == results - {key};
    if key in results {
      TotalRemove(results, key);
    } else {
      assert results - {key} == results;
    }
  }

  lemma {:induction false} AcceptedLength(accepts: (string, int) -> bool, name: string, blocks: seq<Block>)
    requires NoneResolved(blocks)
    ensures |Accepted(accepts, name, blocks)| + |Unresolved(Flag(accepts, name, blocks))| == |blocks|
  {
    if blocks != [] {
      AcceptedLength(accepts, name, blocks[..|blocks| - 1]);
      var f := Flag(accepts, name, blocks[..|blocks| - 1]);
      assert Flag(accepts, name, blocks)[..|f|] == f;
    }
  }

  /** Blocks that are not flagged. */
  function OpenCount(files: seq<File>): nat {
    if files == [] then 0 else OpenCount(files[..|files| - 1]) + |Unresolved(files[|files| - 1].blocks)|
  }

  lemma {:induction false} AppendedTotal(accepts: (string, int) -> bool, dest: string -> string, results: Results,
                                         files: seq<File>)
    requires AllOpen(files)
    ensures Total(Appended(accepts, dest, results, files)) + OpenCount(ProcessedAll(accepts, files)) ==
      Total(results) + Count(files)
  {
    if files != [] {
      var init, f := files[..|files| - 1], files[|files| - 1];
      AppendedTotal(accepts, dest, results, init);
      TotalAppend(Appended(accepts, dest, results, init), dest(f.name), Accepted(accepts, f.name, f.blocks));
      AcceptedLength(accepts, f.name, f.blocks);
      var before := ProcessedAll(accepts, init);
      assert (before + [Processed(accepts, f)])[..|before|] == before;
    }
  }

  lemma {:induction false} TidiedCount(files: seq<File>)
    requires FlagsFit(files)
    ensures Count(Tidied(files)) == OpenCount(files)
  {
    if files != [] {
      var init, f := files[..|files| - 1], files[|files| - 1];
      TidiedCount(init);
      UnresolvedShape(f.blocks);
      var t := Tidied(init);
      assert (t + [f.(blocks := Unresolved(f.blocks))])[..|t|] == t;
    }
  }

  lemma {:induction false} OpenCountIsCount(files: seq<File>)
    requires AllOpen(files)
    ensures OpenCount(files) == Count(files)
  {
    if files != [] {
      OpenCountIsCount(files[..|files| - 1]);
      UnresolvedShape(files[|files| - 1].blocks);
    }
  }

  /** The blocks that went are the resolutions that came. */
  lemma DroppedIsRecorded(accepts: (string, int) -> bool, dest: string -> string, files: seq<File>, results: Results,
                          needShrink: bool)
    requires AllOpen(files) && (!needShrink ==> NothingAccepted(accepts, files))
    ensures Count(files) - Count(After(accepts, files, needShrink)) ==
      Total(Appended(accepts, dest, results, files)) - Total(results)
  {
    AppendedTotal(accepts, dest, results, files);
    ProcessedShape(accepts, files);
    if needShrink {
      TidiedCount(ProcessedAll(accepts, files));
    } else {
      AfterIsOpen(accepts, files, needShrink);
      OpenCountIsCount(ProcessedAll(accepts, files));
    }
  }

  // ---------- which blocks are left ----------

  ghost predicate Takes(h: Handler, name: string, index: int) {
    h.Resolver? && h.accepts(name, index)
  }

  /** The handlers that run, from the i-th on: those before the first one told to skip. */
  ghost function ActiveFrom(handlers: seq<Handler>, i: nat): seq<Handler>
    decreases |handlers| - i
  {
    if i >= |handlers| || handlers[i].skip then [] else [handlers[i]] + ActiveFrom(handlers, i + 1)
  }

  /** They are those in a row up to the end of the chain or the first one told to skip. */
  lemma {:induction false} ActiveUntilSkip(handlers: seq<Handler>, i: nat) returns (end: nat)
    requires i <= |handlers|
    ensures i <= end <= |handlers| && ActiveFrom(handlers, i) == handlers[i..end]
    ensures forall k :: i <= k < end ==> !handlers[k].skip
    ensures end < |handlers| ==> handlers[end].skip
    decreases |handlers| - i
  {
    if i == |handlers| || handlers[i].skip {
      end := i;
    } else {
      end := ActiveUntilSkip(handlers, i + 1);
      assert handlers[i..end] == [handlers[i]] + handlers[i + 1..end];
    }
  }

  ghost predicate SomeTakes(handlers: seq<Handler>, name: string, index: int) {
    exists k :: 0 <= k < |handlers| && Takes(handlers[k], name, index)
  }

  /** The indices that none of the handlers takes, in their order. */
  ghost function Refused(handlers: seq<Handler>, name: string, indices: seq<int>): seq<int> {
    if indices == [] then []
    else
      var rest, x := Refused(handlers, name, indices[..|indices| - 1]), indices[|indices| - 1];
      if SomeTakes(handlers, name, x) then rest else rest + [x]
  }

  /** Every name is left with exactly the blocks that every one of the handlers refuses. */
  ghost predicate Sifted(handlers: seq<Handler>, files0: seq<File>, files: seq<File>) {
    forall name :: Pending(files, HasName(name)) == Refused(handlers, name, Pending(files0, HasName(name)))
  }

  lemma {:induction false} NobodyTakes(handlers: seq<Handler>, name: string, indices: seq<int>)
    requires forall k :: 0 <= k < |handlers| ==> !handlers[k].Resolver?
    ensures Refused(handlers, name, indices) == indices
  {
    if indices != [] {
      NobodyTakes(handlers, name, indices[..|indices| - 1]);
    }
  }

  lemma {:induction false} RefusedConcat(handlers: seq<Handler>, name: string, a: seq<int>, b: seq<int>)
    ensures Refused(handlers, name, a + b) == Refused(handlers, name, a) + Refused(handlers, name, b)
  {
    if b == [] {
      assert a + b == a;
    } else {
      var init := b[..|b| - 1];
      assert (a + b)[..|a + b| - 1] == a + init;
      RefusedConcat(handlers, name, a, init);
    }
  }

  lemma TakenByEither(h: Handler, rest: seq<Handler>, name: string, x: int)
    ensures SomeTakes([h] + rest, name, x) <==> Takes(h, name, x) || SomeTakes(rest, name, x)
    ensures SomeTakes([h], name, x) <==> Takes(h, name, x)
  {
    var all := [h] + rest;
    assert [h][0] == h && all[0] == h;
    assert forall k :: 0 <= k < |rest| ==> all[k + 1] == rest[k];
  }

  lemma {:induction false} RefusedInTurn(h: Handler, rest: seq<Handler>, name: string, indices: seq<int>)
    ensures Refused([h] + rest, name, indices) == Refused(rest, name, Refused([h], name, indices))
  {
    if indices != [] {
      var init, x := indices[..|indices| - 1], indices[|indices| - 1];
      RefusedInTurn(h, rest, name, init);
      TakenByEither(h, rest, name, x);
      var once := Refused([h], name, init);
      assert (once + [x])[..|once|] == once;
    }
  }

  lemma {:induction false} UnresolvedIsRefused(h: Handler, name: string, blocks: seq<Block>)
    requires h.Resolver? && NoneResolved(blocks)
    ensures Indices(Unresolved(Flag(h.accepts, name, blocks))) == Refused([h], name, Indices(blocks))
  {
    if blocks != [] {
      var rest, b := blocks[..|blocks| - 1], blocks[|blocks| - 1];
      UnresolvedIsRefused(h, name, rest);
      var f, x := Flag(h.accepts, name, rest), if h.accepts(name, b.index) then b.(resolved := true) else b;
      UnresolvedOneMore(f, x);
      RefusedOneMore(h, name, Indices(rest), b.index);
    }
  }

  lemma UnresolvedOneMore(blocks: seq<Block>, x: Block)
    ensures Indices(Unresolved(blocks + [x])) == Indices(Unresolved(blocks)) + if x.resolved then [] else [x.index]
  {
    assert (blocks + [x])[..|blocks|] == blocks;
    var u := Unresolved(blocks);
    assert (u + [x])[..|u|] == u;
  }

  lemma RefusedOneMore(h: Handler, name: string, indices: seq<int>, x: int)
    ensures Refused([h], name, indices + [x]) == Refused([h], name, indices) + if Takes(h, name, x) then [] else [x]
  {
    assert (indices + [x])[..|indices|] == indices;
    TakenByEither(h, [], name, x);
  }

  lemma {:induction false} OpenIsRefused(h: Handler, files: seq<File>, name: string)
    requires h.Resolver? && AllOpen(files)
    ensures Open(ProcessedAll(h.accepts, files), HasName(name)) == Refused([h], name, Pending(files, HasName(name)))
  {
    if files != [] {
      var init, f := files[..|files| - 1], files[|files| - 1];
      OpenIsRefused(h, init, name);
      OpenOneMore(h.accepts, init, f, HasName(name));
      if f.name == name {
        UnresolvedIsRefused(h, name, f.blocks);
        RefusedConcat([h], name, Pending(init, HasName(name)), Indices(f.blocks));
      } else {
        assert Pending(init, HasName(name)) + [] == Pending(init, HasName(name));
      }
    }
  }

  /** One handler leaves each file the blocks that it refuses. */
  lemma HandlerSifts(h: Handler, files: seq<File>, needShrink: bool)
    requires h.Resolver? && AllOpen(files) && (!needShrink ==> NothingAccepted(h.accepts, files))
    ensures Sifted([h], files, After(h.accepts, files, needShrink))
  {
    forall name ensures Pending(After(h.accepts, files, needShrink), HasName(name)) ==
      Refused([h], name, Pending(files, HasName(name))) {
      AfterPending(h.accepts, files, needShrink, HasName(name));
      OpenIsRefused(h, files, name);
    }
  }

  /** What the first handler and then the rest of the chain leave. */
  lemma SiftedInTurn(h: Handler, rest: seq<Handler>, files0: seq<File>, files1: seq<File>, files2: seq<File>)
    requires Sifted([h], files0, files1) && Sifted(rest, files1, files2)
    ensures Sifted([h] + rest, files0, files2)
  {
    forall name ensures Pending(files2, HasName(name)) == Refused([h] + rest, name, Pending(files0, HasName(name))) {
      RefusedInTurn(h, rest, name, Pending(files0, HasName(name)));
    }
  }

  lemma NothingLeftToSift(handlers: seq<Handler>, files: seq<File>)
    requires Count(files) == 0
    ensures Sifted(handlers, files, files)
  {
    forall name ensures Pending(files, HasName(name)) == [] {
      NothingPending(files, HasName(name));
    }
  }

  lemma {:induction false} NothingPending(files: seq<File>, chosen: string -> bool)
    requires Count(files) == 0
    ensures Pending(files, chosen) == []
  {
    if files != [] {
      NothingPending(files[..|files| - 1], chosen);
    }
  }

  lemma SiftedByNone(handlers: seq<Handler>, files: seq<File>)
    requires forall k :: 0 <= k < |handlers| ==> !handlers[k].Resolver?
    ensures Sifted(handlers, files, files)
  {
    forall name ensures Pending(files, HasName(name)) == Refused(handlers, name, Pending(files, HasName(name))) {
      NobodyTakes(handlers, name, Pending(files, HasName(name)));
    }
  }

  // ---------- recorded and pending never overlap ----------

  lemma {:induction false} NoDupCounts(s: seq<int>)
    ensures NoDup(s) <==> forall x :: multiset(s)[x] <= 1
  {
    if s != [] {
      var init, x := s[..|s| - 1], s[|s| - 1];
      NoDupCounts(init);
      assert s == init + [x];
      OneMore(init, x);
      if x in init {
        var i :| 0 <= i < |init| && init[i] == x;
        assert s[i] == s[|s| - 1];
        assert multiset(s)[x] > 1;
      } else if NoDup(init) {
        assert NoDup(s);
      } else {
        var y :| multiset(init)[y] > 1;
        assert multiset(s)[y] > 1;
      }
    }
  }

  lemma SplitOfDistinct(a: seq<int>, b: seq<int>, all: seq<int>)
    requires multiset(a) + multiset(b) == multiset(all)
    ensures NoDup(all) <==> NoDup(a) && NoDup(b) && forall i :: i in a ==> i !in b
    ensures forall i :: i in all <==> i in a || i in b
  {
    NoDupCounts(all);
    NoDupCounts(a);
    NoDupCounts(b);
    forall i ensures multiset(a)[i] + multiset(b)[i] == multiset(all)[i] && (i in a <==> multiset(a)[i] > 0) &&
      (i in b <==> multiset(b)[i] > 0) && (i in all <==> multiset(all)[i] > 0) {
      assert (multiset(a) + multiset(b))[i] == multiset(all)[i];
      assert (i in a <==> i in multiset(a)) && (i in b <==> i in multiset(b)) && (i in all <==> i in multiset(all));
    }
  }

  /** What the source tests in debug builds only: from no earlier record on, the recorded and the pending indices of a
      resolution file are its original ones; they are without duplicates and never overlap if and only if the original
      ones were all different. */
  lemma RecordedAndPendingPartition(dest: string -> string, files0: seq<File>, results0: Results, files: seq<File>,
                                    results: Results, key: string)
    requires Carries(dest, files0, results0, files, results) && Recorded(results0, key) == []
    ensures var all, recorded, pending :=
      Pending(files0, SharesKey(dest, key)), Recorded(results, key), Pending(files, SharesKey(dest, key));
      (NoDup(all) <==> NoDup(recorded) && NoDup(pending) && forall i :: i in recorded ==> i !in pending) &&
      forall i :: i in all <==> i in recorded || i in pending
  {
    assert Account(dest, files, results, key) == Account(dest, files0, results0, key);
    SplitOfDistinct(Recorded(results, key), Pending(files, SharesKey(dest, key)),
      Pending(files0, SharesKey(dest, key)));
  }

  /** A file with a resolution file of its own brings its own indices. */
  lemma {:induction false} OwnKey(dest: string -> string, files: seq<File>, k: nat)
    requires k < |files| && forall l :: 0 <= l < |files| && l != k ==> dest(files[l].name) != dest(files[k].name)
    ensures Pending(files, SharesKey(dest, dest(files[k].name))) == Indices(files[k].blocks)
  {
    var init := files[..|files| - 1];
    if k < |files| - 1 {
      assert forall l :: 0 <= l < |init| ==> init[l] == files[l];
      OwnKey(dest, init, k);
    } else {
      NoneChosen(init, SharesKey(dest, dest(files[k].name)));
    }
  }

  lemma {:induction false} NoneChosen(files: seq<File>, chosen: string -> bool)
    requires forall l :: 0 <= l < |files| ==> !chosen(files[l].name)
    ensures Pending(files, chosen) == []
  {
    if files != [] {
      NoneChosen(files[..|files| - 1], chosen);
    }
  }

  /** pathToName (sa_utility.cpp, lines 384-395), for a path that does not end in a separator. */
  function PathToName(path: string): string {
    var sep := if '/' in path then '/' else '\\';
    seq(|path|, i requires 0 <= i < |path| => if path[i] == sep then '@' else if path[i] == ':' then '#' else path[i])
  }

  /** Two files may share a resolution file; if both have a block 1, the record cannot tell them apart. */
  lemma NamesCollide(files: seq<File>)
    requires files == [File("a/b", [Block(1, false)], false), File("a@b", [Block(1, false)], false)]
    ensures PathToName("a/b") == PathToName("a@b") == "a@b"
    ensures Pending(files, SharesKey(PathToName, "a@b")) == [1, 1]
  {
    assert PathToName("a/b") == "a@b" && PathToName("a@b") == "a@b";
    var blocks, chosen := [Block(1, false)], SharesKey(PathToName, "a@b");
    assert Indices(blocks) == [1] by {
      assert blocks[..0] == [];
    }
    OneMoreFile([], files[0], chosen);
    OneMoreFile([files[0]], files[1], chosen);
    assert [] + [files[0]] == [files[0]] && [files[0]] + [files[1]] == files;
  }

  lemma StepOf(accepts: (string, int) -> bool, dest: string -> string, results: Results, files: seq<File>, i: nat)
    requires i < |files|
    ensures ProcessedAll(accepts, files[..i + 1]) == ProcessedAll(accepts, files[..i]) + [Processed(accepts, files[i])]
    ensures Appended(accepts, dest, results, files[..i + 1]) ==
            var rest, key, indices := Appended(accepts, dest, results, files[..i]), dest(files[i].name),
                                      Accepted(accepts, files[i].name, files[i].blocks);
            if indices == [] then rest else rest[key := Recorded(rest, key) + indices]
    ensures NothingAccepted(accepts, files[..i]) && Accepted(accepts, files[i].name, files[i].blocks) == []
            ==> NothingAccepted(accepts, files[..i + 1])
  {
    assert files[..i + 1][..i] == files[..i];
  }

  /** tidyUpConflictBlocks (sa_utility.cpp, lines 216-231). */
  method TidyBlocks(blocks: seq<Block>) returns (kept: seq<Block>)
    ensures kept == Unresolved(blocks)
  {
    if forall k :: 0 <= k < |blocks| ==> !blocks[k].resolved {
      UnresolvedShape(blocks);
      return blocks;
    }
    kept := [];
    for i := 0 to |blocks|
      invariant kept == Unresolved(blocks[..i])
    {
      assert blocks[..i + 1][..i] == blocks[..i];
      if !blocks[i].resolved {
        kept := kept + [blocks[i]];
      }
    }
    assert blocks[..|blocks|] == blocks;
  }

  /** tidyUpConflictFiles (sa_utility.cpp, lines 309-331). */
  method TidyUp(files: seq<File>) returns (kept: seq<File>)
    ensures kept == Tidied(files)
  {
    var shrunk := exists k :: 0 <= k < |files| && files[k].resolved;
    kept := [];
    for i := 0 to |files|
      invariant kept == Tidied(files[..i])
    {
      assert files[..i + 1][..i] == files[..i];
      if !shrunk || !files[i].resolved {
        var blocks := TidyBlocks(files[i].blocks);
        kept := kept + [files[i].(blocks := blocks)];
      }
    }
    assert files[..|files|] == files;
  }

  class Chain {
    const handlers: seq<Handler>
    const dest: string -> string
    var files: seq<File>
    var results: Results

    constructor (handlers: seq<Handler>, dest: string -> string, files: seq<File>, results: Results)
      ensures this.handlers == handlers && this.dest == dest && this.files == files && this.results == results
    {
      this.handlers, this.dest, this.files, this.results := handlers, dest, files, results;
    }

    /** marshalResolutionResult (sa_utility.cpp, lines 333-382). */
    method Marshal(key: string, indices: seq<int>)
      modifies this`results
      ensures results == old(results)[key := Recorded(old(results), key) + indices]
    {
      if key !in results {
        assert [] + indices == indices;
        results := results[key := indices];
      } else {
        results := results[key := results[key] + indices];
      }
    }

    /** The loops over the blocks of one file. */
    method ProcessFile(accepts: (string, int) -> bool, f: File)
      returns (f': File, resolvedBlocks: seq<int>, everResolved: bool)
      requires NoneResolved(f.blocks)
      ensures f' == Processed(accepts, f)
      ensures resolvedBlocks == Accepted(accepts, f.name, f.blocks)
      ensures everResolved <==> resolvedBlocks != []
    {
      var blocks: seq<Block> := [];
      resolvedBlocks := [];
      for i := 0 to |f.blocks|
        invariant blocks == Flag(accepts, f.name, f.blocks[..i])
        invariant resolvedBlocks == Accepted(accepts, f.name, f.blocks[..i])
      {
        assert f.blocks[..i + 1][..i] == f.blocks[..i];
        var block := f.blocks[i];
        if accepts(f.name, block.index) {
          block := block.(resolved := true);
          resolvedBlocks := resolvedBlocks + [block.index];
        }
        blocks := blocks + [block];
      }
      assert f.blocks[..|f.blocks|] == f.blocks;
      everResolved := false;
      var allResolved := true;
      for i := 0 to |blocks|
        invariant everResolved <==> exists k :: 0 <= k < i && blocks[k].resolved
        invariant allResolved <==> forall k :: 0 <= k < i ==> blocks[k].resolved
      {
        if blocks[i].resolved {
          everResolved := true;
        } else {
          allResolved := false;
        }
      }
      FlagShape(accepts, f.name, f.blocks);
      f' := File(f.name, blocks, allResolved);
    }

    /** The loop over the files: every file's accepted indices are recorded under its own key. */
    method ProcessFiles(accepts: (string, int) -> bool) returns (processed: seq<File>, needShrink: bool)
      requires AllOpen(files)
      modifies this`results
      ensures processed == ProcessedAll(accepts, files)
      ensures results == Appended(accepts, dest, old(results), files)
      ensures needShrink <==> !NothingAccepted(accepts, files)
    {
      needShrink, processed := false, [];
      for i := 0 to |files|
        invariant processed == ProcessedAll(accepts, files[..i])
        invariant results == Appended(accepts, dest, old(results), files[..i])
        invariant needShrink <==> !NothingAccepted(accepts, files[..i])
      {
        StepOf(accepts, dest, old(results), files, i);
        var f', resolvedBlocks, everResolved := ProcessFile(accepts, files[i]);
        processed := processed + [f'];
        if everResolved {
          Marshal(dest(f'.name), resolvedBlocks);
          needShrink := true;
        }
      }
      assert files[..|files|] == files;
    }

    /** resolveConflictFiles of the style and text based handlers. */
    method ResolveConflictFiles(h: Handler)
      requires h.Resolver? && AllOpen(files)
      modifies this`files, this`results
      ensures files == After(h.accepts, old(files), !NothingAccepted(h.accepts, old(files)))
      ensures results == Appended(h.accepts, dest, old(results), old(files))
      ensures Carries(dest, old(files), old(results), files, results)
      ensures Sifted([h], old(files), files)
      ensures Count(old(files)) - Count(files) == Total(results) - Total(old(results))
    {
      var processed, needShrink := ProcessFiles(h.accepts);
      Outcome(h.accepts, dest, files, old(results), needShrink);
      HandlerSifts(h, files, needShrink);
      DroppedIsRecorded(h.accepts, dest, files, old(results), needShrink);
      files := processed;
      if needShrink {
        files := TidyUp(processed);
      }
    }

    /** SAHandler::handle (lines 46-72): this handler, then the rest of the chain while conflicts are left.
        A handler that is told to skip does not pass the files on. */
    method HandleFrom(i: nat)
      requires i < |handlers| && AllOpen(files)
      modifies this`files, this`results
      ensures Carries(dest, old(files), old(results), files, results)
      ensures Sifted(ActiveFrom(handlers, i), old(files), files)
      ensures Count(old(files)) - Count(files) == Total(results) - Total(old(results))
      decreases |handlers| - i
    {
      SiftedByNone([], files);
      if !handlers[i].skip {
        if handlers[i].Resolver? {
          ResolveConflictFiles(handlers[i]);
        } else {
          SiftedByNone([handlers[i]], files);
        }
        ghost var files1, rest := files, ActiveFrom(handlers, i + 1);
        if |files| > 0 && i + 1 < |handlers| {
          HandleFrom(i + 1);
        } else if |files| == 0 {
          NothingLeftToSift(rest, files);
        } else {
          SiftedByNone([], files);
        }
        SiftedInTurn(handlers[i], rest, old(files), files1, files);
      }
    }

    /** countConflictBlocks (src/core/HandlerChain.cpp). */
    method CountConflictBlocks() returns (count: nat)
      ensures count == Count(files)
    {
      count := 0;
      for i := 0 to |files|
        invariant count == Count(files[..i])
      {
        assert files[..i + 1][..i] == files[..i];
        count := count + |files[i].blocks|;
      }
      assert files[..|files|] == files;
    }

    /** HandlerChain::handle (lines 27-45): returns the counts it writes to the ratio file. */
    method Handle() returns (before: nat, resolved: int)
      requires |handlers| > 0 && AllOpen(files)
      modifies this`files, this`results
      ensures Carries(dest, old(files), old(results), files, results)
      ensures Sifted(ActiveFrom(handlers, 0), old(files), files)
      ensures before == Count(old(files)) && Count(files) == before - resolved
      ensures resolved == Total(results) - Total(old(results))
    {
      before := CountConflictBlocks();
      if before > 0 {
        HandleFrom(0);
      } else {
        NothingLeftToSift(ActiveFrom(handlers, 0), files);
      }
      var after := CountConflictBlocks();
      resolved := before - after;
    }
  }
}
