/** Reading frames from a non-blocking pipe (src/lsp/client.cpp, lines 30-178; src/lsp/communicator.cpp, lines
    201-231). */
module Framing {
  import opened Strings
  import opened FrameSpec
  import opened FrameLoss

  /** What the kernel answers to one read call. A chunk has at least one byte and no more than was asked for or is
      there. */
  datatype Answer = Chunk(most: nat) | WouldBlock | EndOfFile | Failure

  /** What PipeCommunicator::read returns, at what time, after taking how much; and whether errno is EAGAIN. */
  datatype FetchResult = FetchResult(n: int, clock: nat, total: nat, again: bool)

  datatype FetchStep = Stop(result: FetchResult) | Go(clock: nat, total: nat, retries: nat, again: bool)

  /** The buffer after text has been written at a position. */
  ghost function Written(buf: string, at: nat, text: string): string
    requires at + |text| <= |buf|
  {
    buf[..at] + text + buf[at + |text|..]
  }

  lemma WrittenTwice(buf: string, at: nat, text: string, more: string)
    requires at + |text| + |more| <= |buf|
    ensures Written(Written(buf, at, text), at + |text|, more) == Written(buf, at, text + more)
  {
    var once := Written(buf, at, text);
    assert once[..at + |text|] == buf[..at] + text;
    assert once[at + |text| + |more|..] == buf[at + |text| + |more|..];
  }

  lemma TakeMore(s: string, i: nat, n: nat)
    requires i + n <= |s|
    ensures s[..i] + s[i..][..n] == s[..i + n] && s[i..][n..] == s[i + n..]
  {
  }

  /** The first total bytes of data are in the buffer; the others are still pending. */
  ghost predicate Fetched(buf: string, before: string, at: nat, data: string, total: nat, pending: string) {
    total <= |data| && at + total <= |before| && pending == data[total..] && buf == Written(before, at, data[..total])
  }

  lemma FetchedMore(once: string, buf: string, before: string, at: nat, data: string, total: nat, pending: string,
                    k: nat)
    requires total + k <= |data| && at + total + k <= |before| && Fetched(once, before, at, data, total, data[total..])
    requires |once| == |before| && pending == data[total..][k..] && buf == Written(once, at + total, data[total..][..k])
    ensures Fetched(buf, before, at, data, total + k, pending)
  {
    WrittenTwice(before, at, data[..total], data[total..][..k]);
    TakeMore(data, total, k);
  }

  /** Fewer than len bytes are gone. */
  ghost predicate Short(data: string, left: string, len: nat) {
    |left| <= |data| && left == data[|data| - |left|..] && |data| - |left| < len
  }

  lemma FetchedLength(buf: string, before: string, at: nat, data: string, total: nat, pending: string)
    requires Fetched(buf, before, at, data, total, pending)
    ensures total <= |data| && |pending| == |data| - total && |buf| == |before| && pending == data[total..]
  {
  }

  lemma FetchedTurn(once: string, buf: string, before: string, at: nat, data: string, total: nat, pending: string,
                    k: int)
    requires total <= |data| && Fetched(once, before, at, data, total, data[total..]) && |once| == |before|
    requires k == -1 ==> pending == data[total..] && buf == once
    requires k != -1 ==> 0 <= k <= |data| - total && at + total + k <= |before|
    requires k != -1 ==> pending == data[total..][k..] && buf == Written(once, at + total, data[total..][..k])
    ensures Fetched(buf, before, at, data, total + if k > 0 then k else 0, pending)
  {
    if k >= 0 {
      FetchedMore(once, buf, before, at, data, total, pending, k);
    }
  }

  lemma FetchedIsShort(buf: string, before: string, at: nat, data: string, total: nat, pending: string, len: nat)
    requires Fetched(buf, before, at, data, total, pending) && total < len
    ensures Short(data, pending, len) && |pending| == |data| - total && (total == 0 ==> pending == data)
  {
  }

  /** A message that was received is the one that was sent, and nothing of what follows it is gone. */
  ghost predicate Faithful(r: Response, pending: string, reply: Reply) {
    r == reply.response && (r.Undefined? || pending == reply.rest)
  }

  ghost predicate Got(content: string, size: nat, before: string, after: string) {
    size <= |before| && content == before[..size] && after == before[size..]
  }

  /** A zeroed line buffer into which the first bytes of data have been read. */
  ghost predicate Holds(buf: string, data: string, n: nat) {
    |buf| == BUFFER_SIZE && n <= BUFFER_SIZE && n <= |data| && buf[..n] == data[..n] &&
    forall k :: n <= k < BUFFER_SIZE ==> buf[k] == '\0'
  }

  lemma HoldsOneMore(before: string, buf: string, data: string, n: nat)
    requires Holds(before, data, n) && n < |data| && n < BUFFER_SIZE && buf == Written(before, n, data[n..][..1])
    ensures Holds(buf, data, n + 1) && buf[n] == data[n]
  {
    assert data[n..][..1] == [data[n]];
    assert buf[..n + 1] == before[..n] + [data[n]] == data[..n + 1];
  }

  /** The text of the buffer is the text of the line it holds. */
  lemma HeldText(buf: string, data: string, n: nat)
    requires Holds(buf, data, n)
    ensures var i := Find(buf, '\0');
      BufferText(data[..n]) == if i < BUFFER_SIZE then Line(buf[..i], "") else Overrun
  {
    var i, j := Find(buf, '\0'), Find(data[..n], '\0');
    assert forall k :: 0 <= k < n ==> buf[..n][k] == buf[k] == data[..n][k];
    FindIs(buf, '\0', j);
    assert buf[..i] == data[..n][..i] by {
      assert i <= n;
      assert buf[..i] == buf[..n][..i];
    }
  }

  class Endpoint {
    const json: string -> bool
    const kernel: (nat, nat) -> Answer
    ghost const patience: nat -> nat
    var pending: string
    var clock: nat
    var offset: nat
    var again: bool

    /** The kernel answers by the number of the call and the offset in the stream. json accepts no empty text; again
        says that errno is EAGAIN. */
    constructor (json: string -> bool, kernel: (nat, nat) -> Answer, ghost patience: nat -> nat, pending: string)
      requires !json("")
      ensures this.json == json && this.kernel == kernel && this.patience == patience
      ensures this.pending == pending && clock == 0 && offset == 0
    {
      this.json, this.kernel, this.pending, clock, offset, again := json, kernel, pending, 0, 0, false;
      this.patience := patience;
    }

    /** From now on the kernel hands out whatever is in the pipe, in chunks of its own choice. */
    ghost predicate Delivering()
      reads this
    {
      DeliveringFrom(clock)
    }

    /** At this offset the kernel delivers or blocks. */
    ghost predicate Answers(p: nat) {
      forall t: nat :: kernel(t, p).Chunk? || kernel(t, p).WouldBlock?
    }

    /** At this offset it blocks at most patience(p) times in a row. */
    ghost predicate Patient(p: nat) {
      Answers(p) && forall t: nat :: DeliversAfter(p, t)
    }

    ghost predicate DeliversAfter(p: nat, t: nat) {
      exists v: nat :: t <= v <= t + patience(p) && kernel(v, p).Chunk?
    }

    ghost predicate BlockedSince(p: nat, since: nat, now: nat) {
      forall t: nat :: since <= t < now ==> kernel(t, p).WouldBlock?
    }

    ghost predicate Timely(from: nat, end: nat) {
      forall p :: from <= p < end ==> Patient(p)
    }

    /** Between these offsets it never blocks. */
    ghost predicate Prompt(from: nat, end: nat) {
      forall t: nat, p: nat :: from <= p < end ==> kernel(t, p).Chunk?
    }

    /** How often it may block between these offsets. */
    ghost function Blocks(from: nat, end: nat): nat
      decreases end - from
    {
      if from >= end then 0 else Blocks(from, end - 1) + patience(end - 1)
    }

    lemma {:induction false} BlocksSplit(from: nat, mid: nat, end: nat)
      requires from <= mid <= end
      ensures Blocks(from, end) == Blocks(from, mid) + Blocks(mid, end)
      decreases end
    {
      if mid < end {
        BlocksSplit(from, mid, end - 1);
      }
    }

    /** What read(2) returns when avail bytes are in the pipe and len are asked for. An empty pipe blocks until its
        writer is gone; only then does it report its end. */
    function Taken(t: nat, p: nat, avail: nat, len: nat): (n: int)
      requires 0 < len
      ensures n == -1 || (0 <= n <= len && n <= avail)
      ensures n == 0 ==> avail == 0
    {
      var answer := kernel(t, p);
      if answer.Chunk? && avail > 0 then
        var some := if answer.most < 1 then 1 else answer.most;
        var fit := if some > len then len else some;
        if fit > avail then avail else fit
      else if answer.EndOfFile? && avail == 0 then 0
      else -1
    }

    /** read(2). */
    method SysRead(buf: array<char>, at: nat, len: nat) returns (n: int)
      requires 0 < len && at + len <= buf.Length
      modifies this`pending, this`clock, this`offset, this`again, buf
      ensures n == Taken(old(clock), old(offset), |old(pending)|, len) && clock == old(clock) + 1
      ensures again == if n == -1 then !kernel(old(clock), old(offset)).Failure? else old(again)
      ensures n == -1 ==> pending == old(pending) && offset == old(offset) && buf[..] == old(buf[..])
      ensures n >= 0 ==> pending == old(pending)[n..] && offset == old(offset) + n
      ensures n >= 0 ==> buf[..] == Written(old(buf[..]), at, old(pending)[..n])
    {
      n := Taken(clock, offset, |pending|, len);
      if n >= 0 {
        forall j | 0 <= j < n {
          buf[at + j] := pending[j];
        }
        pending := pending[n..];
        offset := offset + n;
      } else {
        again := !kernel(clock, offset).Failure?;
      }
      clock := clock + 1;
    }

    /** One turn of the loop of PipeCommunicator::read: it returns, or goes on with more bytes or fewer retries. */
    function FetchTurn(t: nat, start: nat, avail: nat, len: nat, total: nat, retries: nat,
                       errno: bool): (turn: FetchStep)
      requires total < len && total <= avail && retries <= 3
      ensures turn.Stop? ==>
        turn.result.clock == t + 1 && turn.result.total == total && (turn.result.n == -1 || turn.result.n == 0)
      ensures turn.Stop? && turn.result.n == 0 ==> total == 0 || total == avail
      ensures turn.Go? ==> turn.clock == t + 1 && total <= turn.total <= len && turn.total <= avail && turn.retries <= 3
      ensures turn.Go? ==> total < turn.total || retries < turn.retries
    {
      var k := Taken(t, start + total, avail - total, len - total);
      AfterRead(k, t + 1, total, retries, if k == -1 then !kernel(t, start + total).Failure? else errno)
    }

    /** What read makes of one answer. */
    function AfterRead(k: int, now: nat, total: nat, retries: nat, errno: bool): FetchStep {
      if k > 0 then Go(now, total + k, retries, errno)
      else if k == 0 || (errno && total == 0) then Stop(FetchResult(0, now, total, errno))
      else if errno && retries < 3 then Go(now, total, retries + 1, errno)
      else Stop(FetchResult(-1, now, total, errno))
    }

    /** The whole loop: what it returns, when, and how much it has taken by then. */
    function Fetching(t: nat, start: nat, avail: nat, len: nat, total: nat, retries: nat, errno: bool): (r: FetchResult)
      requires total <= len && total <= avail && retries <= 3
      ensures total <= r.total <= len && r.total <= avail && t <= r.clock
      ensures (r.n == -1 || r.n == 0 || r.n == len) && (len > 0 ==> (r.n == len <==> r.total == len))
      ensures len > 0 && r.n == 0 ==> r.total == 0 || r.total == avail
      decreases len - total, 3 - retries
    {
      if total == len then FetchResult(len, t, total, errno)
      else
        var turn := FetchTurn(t, start, avail, len, total, retries, errno);
        if turn.Stop? then turn.result
        else Fetching(turn.clock, start, avail, len, turn.total, turn.retries, turn.again)
    }

    ghost predicate DeliveringFrom(c: nat) {
      forall t: nat, p: nat :: c <= t ==> kernel(t, p).Chunk?
    }

    lemma {:induction false} FetchingDelivers(t: nat, start: nat, avail: nat, len: nat, total: nat, retries: nat,
                                              errno: bool)
      requires total <= len && total <= avail && retries <= 3 && DeliveringFrom(t)
      ensures var r := Fetching(t, start, avail, len, total, retries, errno);
        if avail >= len then r.n == len else r.total == avail && (r.n == 0 ==> r.again)
      decreases len - total, 3 - retries
    {
      if total < len {
        assert kernel(t, start + total).Chunk?;
        var turn := FetchTurn(t, start, avail, len, total, retries, errno);
        if turn.Go? {
          FetchingDelivers(turn.clock, start, avail, len, turn.total, turn.retries, turn.again);
        }
      }
    }

    /** A kernel that blocks, after the first byte, no more often than read is willing to try again. */
    ghost predicate InBudget(start: nat, len: nat) {
      Timely(start, start + len) && Blocks(start + 1, start + len) <= 3
    }

    /** Only the first call was made, and blocked. */
    twostate predicate BlockedAtOnce()
      reads this
    {
      pending == old(pending) && offset == old(offset) && clock == old(clock) + 1 && again &&
      old(kernel(clock, offset)).WouldBlock?
    }

    /** While read waits at an offset: it has blocked every time since it came there. */
    ghost predicate Waiting(now: nat, since: nat, start: nat, total: nat, retries: nat) {
      since <= now && (total == 0 ==> retries == 0 && since == now) &&
      retries <= Blocks(start + 1, start + total) + (now - since) && BlockedSince(start + total, since, now)
    }

    /** A patient kernel stops blocking before the retries are used up. */
    lemma MoreRetries(now: nat, since: nat, start: nat, len: nat, total: nat, retries: nat)
      requires InBudget(start, len) && 0 < total < len
      requires Waiting(now, since, start, total, retries) && kernel(now, start + total).WouldBlock?
      ensures retries < 3 && Waiting(now + 1, since, start, total, retries + 1)
    {
      var p := start + total;
      assert Patient(p);
      assert BlockedSince(p, since, now + 1);
      WaitedLong(since, p, now + 1);
      BlocksSplit(start + 1, p, p + 1);
      BlocksSplit(start + 1, p + 1, start + len);
    }

    lemma WaitedLong(since: nat, p: nat, now: nat)
      requires Patient(p) && since <= now && BlockedSince(p, since, now)
      ensures now - since <= patience(p)
    {
      assert DeliversAfter(p, since);
      var v: nat :| since <= v <= since + patience(p) && kernel(v, p).Chunk?;
    }

    lemma Delivered(now: nat, since: nat, start: nat, len: nat, total: nat, retries: nat, k: nat)
      requires Timely(start, start + len) && total < len && 0 < k && Waiting(now, since, start, total, retries)
      ensures Waiting(now + 1, now + 1, start, total + k, retries)
    {
      if total > 0 {
        var p := start + total;
        assert Patient(p);
        WaitedLong(since, p, now);
        BlocksSplit(start + 1, p, p + 1);
        BlocksSplit(start + 1, p + 1, p + k);
      }
    }

    /** Within the budget, the loop takes everything, or its first call blocks. */
    lemma {:induction false} FetchingInBudget(t: nat, since: nat, start: nat, avail: nat, len: nat, total: nat,
                                              retries: nat, errno: bool)
      requires InBudget(start, len) && total <= len <= avail && retries <= 3 && Waiting(t, since, start, total, retries)
      ensures var r := Fetching(t, start, avail, len, total, retries, errno);
        r.n == len || (total == 0 && r == FetchResult(0, t + 1, 0, true) && kernel(t, start).WouldBlock?)
      decreases len - total, 3 - retries
    {
      if total < len {
        var turn := FetchTurn(t, start, avail, len, total, retries, errno);
        assert Patient(start + total);
        if kernel(t, start + total).Chunk? {
          Delivered(t, since, start, len, total, retries, turn.total - total);
          FetchingInBudget(turn.clock, t + 1, start, avail, len, turn.total, turn.retries, turn.again);
        } else if total > 0 {
          MoreRetries(t, since, start, len, total, retries);
          FetchingInBudget(turn.clock, since, start, avail, len, turn.total, turn.retries, turn.again);
        }
      }
    }

    // ---------- exactly when the content of a message comes ----------

    /** Between these offsets the kernel delivers or blocks. */
    ghost predicate Answering(from: nat, end: nat) {
      forall p :: from <= p < end ==> Answers(p)
    }

    /** How often the kernel blocks in so many calls, if one asks again and again until all is there. */
    function Waits(t: nat, start: nat, avail: nat, len: nat, total: nat, calls: nat): nat
      requires total <= avail
      decreases calls
    {
      if calls == 0 || total >= len then 0
      else
        var k := Taken(t, start + total, avail - total, len - total);
        if k > 0 then Waits(t + 1, start, avail, len, total + k, calls - 1)
        else 1 + Waits(t + 1, start, avail, len, total, calls - 1)
    }

    /** However often one asks, the kernel blocks no more often than that. */
    ghost predicate WaitsAtMost(t: nat, start: nat, avail: nat, len: nat, total: nat, most: nat)
      requires total <= avail
    {
      forall calls :: Waits(t, start, avail, len, total, calls) <= most
    }

    lemma WaitsStep(t: nat, start: nat, avail: nat, len: nat, total: nat, most: nat)
      requires total < len <= avail
      ensures var k := Taken(t, start + total, avail - total, len - total);
        WaitsAtMost(t, start, avail, len, total, most) <==>
          if k > 0 then WaitsAtMost(t + 1, start, avail, len, total + k, most)
          else most > 0 && WaitsAtMost(t + 1, start, avail, len, total, most - 1)
    {
      var k := Taken(t, start + total, avail - total, len - total);
      var t', next, more := t + 1, total + (if k > 0 then k else 0), if k > 0 then 0 else 1;
      if WaitsAtMost(t, start, avail, len, total, most) {
        assert Waits(t, start, avail, len, total, 1) == more + Waits(t', start, avail, len, next, 0);
        forall calls: nat ensures Waits(t', start, avail, len, next, calls) <= most - more {
          assert Waits(t, start, avail, len, total, calls + 1) == more + Waits(t', start, avail, len, next, calls);
        }
      } else {
        var calls: nat :| Waits(t, start, avail, len, total, calls) > most;
        assert Waits(t, start, avail, len, total, calls) == more + Waits(t', start, avail, len, next, calls - 1);
      }
    }

    /** After the first byte, read takes everything if and only if the kernel blocks no more often than it has
        retries. */
    lemma {:induction false} FetchingIff(t: nat, start: nat, avail: nat, len: nat, total: nat, retries: nat,
                                         errno: bool)
      requires Answering(start, start + len) && 0 < total <= len <= avail && retries <= 3
      ensures var r := Fetching(t, start, avail, len, total, retries, errno);
        (r.n == len || r.n == -1) && (r.n == len <==> WaitsAtMost(t, start, avail, len, total, 3 - retries))
      decreases len - total, 3 - retries
    {
      if total < len {
        assert Answers(start + total);
        WaitsStep(t, start, avail, len, total, 3 - retries);
        var turn := FetchTurn(t, start, avail, len, total, retries, errno);
        if turn.Go? {
          FetchingIff(turn.clock, start, avail, len, turn.total, turn.retries, turn.again);
        }
      }
    }

    /** The kernel delivers something within seven tries, and then blocks at most three times before all is there. */
    ghost predicate InTime(t: nat, start: nat, avail: nat, len: nat) {
      exists first: nat :: first <= 6 && ComesAfter(t, start, avail, len, first)
    }

    ghost predicate ComesAfter(t: nat, start: nat, avail: nat, len: nat, first: nat) {
      0 < len <= avail && BlockedSince(start, t, t + first) && kernel(t + first, start).Chunk? &&
      WaitsAtMost(t + first + 1, start, avail, len, Taken(t + first, start, avail, len), 3)
    }

    /** A try that finds nothing, or one that decides. */
    lemma TryOnce(t: nat, start: nat, avail: nat, len: nat, errno: bool)
      requires Answering(start, start + len) && 0 < len <= avail
      ensures var r := Fetching(t, start, avail, len, 0, 0, errno);
        if kernel(t, start).WouldBlock? then r == FetchResult(0, t + 1, 0, true)
        else (r.n == len || r.n == -1) && (r.n == len <==> ComesAfter(t, start, avail, len, 0))
    {
      assert Answers(start);
      if kernel(t, start).Chunk? {
        var turn := FetchTurn(t, start, avail, len, 0, 0, errno);
        FetchingIff(turn.clock, start, avail, len, turn.total, turn.retries, turn.again);
      }
    }

    /** The first try that does not block decides. */
    lemma FirstChunk(since: nat, t: nat, start: nat, avail: nat, len: nat)
      requires since <= t <= since + 6 && BlockedSince(start, since, t) && kernel(t, start).Chunk?
      ensures InTime(since, start, avail, len) <==> ComesAfter(t, start, avail, len, 0)
    {
      if ComesAfter(t, start, avail, len, 0) {
        assert ComesAfter(since, start, avail, len, t - since);
      }
      forall first: nat | ComesAfter(since, start, avail, len, first) ensures first == t - since {
        assert kernel(since + first, start).Chunk?;
      }
    }

    lemma NeverCame(since: nat, start: nat, avail: nat, len: nat)
      requires BlockedSince(start, since, since + 7)
      ensures !InTime(since, start, avail, len)
    {
      forall first: nat | first <= 6 ensures !ComesAfter(since, start, avail, len, first) {
        assert kernel(since + first, start).WouldBlock?;
      }
    }

    /** PipeCommunicator::read (communicator.cpp, lines 201-231): all or nothing, with three retries. */
    method Read(buf: array<char>, at: nat, len: nat) returns (n: int)
      requires 0 < len && at + len <= buf.Length
      modifies this`pending, this`clock, this`offset, this`again, buf
      ensures clock >= old(clock) && offset + |pending| == old(offset + |pending|) && (n == -1 || n == 0 || n == len)
      ensures n == len ==> len <= |old(pending)| && pending == old(pending)[len..]
      ensures n == len ==> buf[..] == Written(old(buf[..]), at, old(pending)[..len])
      ensures n != len ==> Short(old(pending), pending, len)
      ensures n == 0 ==> pending == "" || pending == old(pending)
      ensures old(Delivering()) && |old(pending)| >= len ==> n == len
      ensures old(Delivering()) && |old(pending)| < len ==> pending == "" && (n == 0 ==> again)
      ensures InBudget(old(offset), len) && len <= |old(pending)| ==> n == len || (n == 0 && BlockedAtOnce())
      ensures Answering(old(offset), old(offset) + len) && len <= |old(pending)| ==>
        if kernel(old(clock), old(offset)).WouldBlock? then n == 0 && BlockedAtOnce()
        else n != 0 && (n == len <==> ComesAfter(old(clock), old(offset), |old(pending)|, len, 0))
    {
      ghost var r := FetchOutcome(clock, offset, |pending|, len, again);
      n := Fetch(buf, at, len);
      FetchedLength(buf[..], old(buf[..]), at, old(pending), r.total, pending);
      if n != len {
        FetchedIsShort(buf[..], old(buf[..]), at, old(pending), r.total, pending, len);
      }
    }

    lemma FetchOutcome(t: nat, start: nat, avail: nat, len: nat, errno: bool) returns (r: FetchResult)
      ensures r == Fetching(t, start, avail, len, 0, 0, errno)
      ensures DeliveringFrom(t) ==> if avail >= len then r.n == len else r.total == avail && (r.n == 0 ==> r.again)
      ensures InBudget(start, len) && len <= avail ==>
        r.n == len || (r == FetchResult(0, t + 1, 0, true) && kernel(t, start).WouldBlock?)
      ensures Answering(start, start + len) && 0 < len <= avail ==>
        if kernel(t, start).WouldBlock? then r == FetchResult(0, t + 1, 0, true)
        else r.n != 0 && (r.n == len <==> ComesAfter(t, start, avail, len, 0))
    {
      r := Fetching(t, start, avail, len, 0, 0, errno);
      if DeliveringFrom(t) {
        FetchingDelivers(t, start, avail, len, 0, 0, errno);
      }
      if InBudget(start, len) && len <= avail {
        FetchingInBudget(t, t, start, avail, len, 0, 0, errno);
      }
      if Answering(start, start + len) && 0 < len <= avail {
        TryOnce(t, start, avail, len, errno);
      }
    }

    /** Its loop. */
    method Fetch(buf: array<char>, at: nat, len: nat) returns (n: int)
      requires 0 < len && at + len <= buf.Length
      modifies this`pending, this`clock, this`offset, this`again, buf
      ensures var r := Fetching(old(clock), old(offset), |old(pending)|, len, 0, 0, old(again));
        n == r.n && clock == r.clock && again == r.again && offset == old(offset) + r.total &&
        Fetched(buf[..], old(buf[..]), at, old(pending), r.total, pending)
    {
      var total, retries := 0, 0;
      ghost var data, before, start := pending, buf[..], offset;
      ghost var result := Fetching(clock, start, |data|, len, 0, 0, again);
      assert data[0..] == data && Written(before, at, data[..0]) == before;
      while total < len
        invariant total <= len && total <= |data| && retries <= 3 && offset == start + total
        invariant Fetched(buf[..], before, at, data, total, pending)
        invariant Fetching(clock, start, |data|, len, total, retries, again) == result
        decreases len - total, 3 - retries
      {
        var turn := ReadTurn(buf, at, len, total, retries, before, data, start);
        if turn.Stop? {
          return turn.result.n;
        }
        total, retries := turn.total, turn.retries;
      }
      return total;
    }

    /** One turn of the loop. */
    method ReadTurn(buf: array<char>, at: nat, len: nat, total: nat, retries: nat,
                    ghost before: string, ghost data: string, ghost start: nat) returns (turn: FetchStep)
      requires total < len && total <= |data| && retries <= 3 && at + len <= buf.Length == |before|
      requires Fetched(buf[..], before, at, data, total, pending) && offset == start + total
      modifies this`pending, this`clock, this`offset, this`again, buf
      ensures turn == FetchTurn(old(clock), start, |data|, len, total, retries, old(again))
      ensures turn.Go? ==> clock == turn.clock && again == turn.again && offset == start + turn.total &&
                           Fetched(buf[..], before, at, data, turn.total, pending)
      ensures turn.Stop? ==> clock == turn.result.clock && again == turn.result.again && offset == old(offset) &&
                             Fetched(buf[..], before, at, data, total, pending)
    {
      ghost var once := buf[..];
      FetchedLength(once, before, at, data, total, pending);
      var k := SysRead(buf, at + total, len - total);
      FetchedTurn(once, buf[..], before, at, data, total, pending, k);
      assert FetchTurn(old(clock), start, |data|, len, total, retries, old(again)) ==
        AfterRead(k, clock, total, retries, again);
      if k == -1 {
        if again {
          if total == 0 {
            return Stop(FetchResult(0, clock, total, again));
          } else if retries < 3 {
            return Go(clock, total, retries + 1, again);
          }
        }
        return Stop(FetchResult(-1, clock, total, again));
      } else if k == 0 {
        return Stop(FetchResult(0, clock, total, again));
      }
      return Go(clock, total + k, retries, again);
    }

    /** Reading one byte: it is taken, or nothing is. */
    method ReadByte(buf: array<char>, at: nat) returns (ok: bool)
      requires at < buf.Length
      modifies this`pending, this`clock, this`offset, this`again, buf
      ensures clock >= old(clock) && offset + |pending| == old(offset + |pending|)
      ensures ok ==> old(pending) != "" && pending == old(pending)[1..]
      ensures ok ==> buf[..] == Written(old(buf[..]), at, old(pending)[..1])
      ensures !ok ==> pending == old(pending)
      ensures old(Delivering()) ==> (ok <==> old(pending) != "")
      ensures old(Prompt(offset, offset + 1)) && old(pending) != "" ==> ok
    {
      assert Prompt(offset, offset + 1) ==> InBudget(offset, 1) by {
        PromptIsTimely(offset, offset + 1);
      }
      assert Prompt(offset, offset + 1) ==> kernel(clock, offset).Chunk?;
      var n := Read(buf, at, 1);
      ok := n == 1;
    }

    lemma PromptIsTimely(from: nat, end: nat)
      ensures Prompt(from, end) ==> Timely(from, end)
    {
      if Prompt(from, end) {
        forall p | from <= p < end ensures Patient(p) {
          forall t: nat ensures DeliversAfter(p, t) {
            assert kernel(t, p).Chunk?;
          }
        }
      }
    }

    /** readLine (client.cpp, lines 80-119): byte by byte into a buffer of 256. Whatever the kernel does, a line that
        is returned is the next line of the stream; otherwise the bytes read so far are dropped. */
    method NextLine() returns (text: string, overrun: bool)
      modifies this`pending, this`clock, this`offset, this`again
      ensures clock >= old(clock) && offset + |pending| == old(offset + |pending|)
      ensures overrun ==> ReadLine(old(pending)).Overrun?
      ensures !overrun && text != "" ==> ReadLine(old(pending)) == Line(text, pending)
      ensures !overrun && text == "" ==> Dropped(old(pending), pending) || ReadLine(old(pending)) == Line("", pending)
      ensures old(Delivering()) ==> Agrees(text, overrun, pending, ReadLine(old(pending)))
      ensures Smooth(old(offset), old(pending)) ==>
        Agrees(text, overrun, pending, ReadLine(old(pending))) || (text == "" && !overrun && pending == old(pending))
      ensures Smooth(old(offset), old(pending)) && Prompt(old(offset), old(offset) + 1) ==>
        Agrees(text, overrun, pending, ReadLine(old(pending)))
    {
      ghost var cut;
      text, overrun, cut := ScanLine();
      if cut {
        CutLine(old(offset), old(pending), pending);
      }
    }

    /** Its loop; cut says that a byte did not come. */
    method ScanLine() returns (text: string, overrun: bool, ghost cut: bool)
      modifies this`pending, this`clock, this`offset, this`again
      ensures clock >= old(clock) && offset + |pending| == old(offset + |pending|)
      ensures !cut ==> if overrun then ReadLine(old(pending)).Overrun?
        else ReadLine(old(pending)) == Line(text, pending)
      ensures cut ==> text == "" && !overrun && CutAt(old(offset), old(pending), pending)
      ensures cut && old(Delivering()) ==> pending == ""
    {
      var buf := new char[BUFFER_SIZE](_ => '\0');
      var len := 0;
      ghost var data, start := pending, offset;
      while true
        invariant Holds(buf[..], data, len) && pending == data[len..] && clock >= old(clock) && offset == start + len
        invariant forall k :: 0 <= k < len ==> data[k] != '\n'
        decreases |pending|
      {
        if len == BUFFER_SIZE {
          // the next byte would land behind the buffer
          NoNewlineYet(data, len);
          var beyond := new char[1];
          var ok := ReadByte(beyond, 0);
          return "", ok, !ok;
        }
        ghost var before := buf[..];
        var ok := ReadByte(buf, len);
        if !ok {
          return "", false, true;
        }
        HoldsOneMore(before, buf[..], data, len);
        TakeMore(data, len, 1);
        if buf[len] == '\n' {
          LineFound(data, len);
          HeldText(buf[..], data, len + 1);
          var i := Find(buf[..], '\0');
          if i == BUFFER_SIZE {
            return "", true, false;
          }
          return buf[..i], false, false;
        }
        len := len + 1;
      }
    }

    /** The bytes before a newline are gone, and the next one is not there or late. */
    ghost predicate CutAt(start: nat, data: string, left: string) {
      Dropped(data, left) && |data| - |left| <= BUFFER_SIZE &&
      (left != "" ==> !Prompt(start + |data| - |left|, start + |data| - |left| + 1))
    }

    lemma CutLine(start: nat, data: string, left: string)
      requires CutAt(start, data, left)
      ensures left == "" ==> Agrees("", false, left, ReadLine(data))
      ensures Smooth(start, data) ==> left == data && !Prompt(start, start + 1)
    {
      var n := |data| - |left|;
      NoNewlineYet(data, n);
      if Smooth(start, data) {
        assert left != "";
        assert n == 0;
        assert left == data[0..];
      }
    }

    /** The next line is there, and after its first byte the kernel delivers it without blocking. */
    ghost predicate Smooth(start: nat, data: string) {
      ReadLine(data).Line? && Prompt(start + 1, start + |data| - |ReadLine(data).rest|)
    }

    /** A kernel that blocks no more often than the retries allow. */
    ghost predicate InContentBudget(start: nat, size: nat) {
      size > 0 ==> InBudget(start, size) && patience(start) <= 6
    }

    /** readMessageContent (client.cpp, lines 121-178): all of it, or "" when the pipe fails to deliver. */
    method ReadMessageContent(size: nat) returns (content: string)
      modifies this`pending, this`clock, this`offset, this`again
      ensures clock >= old(clock) && offset + |pending| == old(offset + |pending|)
      ensures Got(content, size, old(pending), pending) || content == ""
      ensures old(Delivering()) && |old(pending)| >= size ==> Got(content, size, old(pending), pending)
      ensures old(Delivering()) && |old(pending)| < size ==> content == "" && pending == ""
      ensures InContentBudget(old(offset), size) && size <= |old(pending)| ==> Got(content, size, old(pending), pending)
      ensures Answering(old(offset), old(offset) + size) && 0 < size <= |old(pending)| ==>
        (content != "" <==> InTime(old(clock), old(offset), |old(pending)|, size))
    {
      var buf := new char[size](_ => '\0');
      var total, retries := 0, 0;
      ghost var data, start, since, delivering := pending, offset, clock, Delivering();
      ghost var budget := size > 0 && InContentBudget(offset, size) && size <= |pending|;
      ghost var answering := Answering(offset, offset + size) && 0 < size <= |pending|;
      while total < size
        invariant total == 0 || (total == size && Got(buf[..], size, data, pending))
        invariant (total == 0 ==> pending == data || pending == "") && (size == 0 ==> pending == data)
        invariant clock >= since && retries <= 6 && offset + |pending| == start + |data|
        invariant delivering && total == 0 ==> if |data| >= size then pending == data else retries == 0 || pending == ""
        invariant (budget || answering) && total == 0 ==> StillBlocked(data, start, since, retries)
        invariant answering && total > 0 ==> InTime(since, start, |data|, size)
        decreases size - total, 6 - retries
      {
        var n := ContentTurn(buf, size, data, start, since, retries);
        if n == -1 {
          return "";
        }
        if n == 0 && again {
          if retries < 6 {
            retries := retries + 1;
            continue;
          }
          if answering {
            NeverCame(since, start, |data|, size);
          }
          return "";
        }
        if n == 0 {
          return "";
        }
        total := total + n;
      }
      return buf[..];
    }

    /** Nothing has come yet: every try has blocked. */
    ghost predicate StillBlocked(data: string, start: nat, since: nat, retries: nat)
      reads this
    {
      pending == data && offset == start && clock == since + retries && BlockedSince(start, since, clock)
    }

    method ContentTurn(buf: array<char>, size: nat, ghost data: string, ghost start: nat, ghost since: nat,
                       ghost retries: nat)
      returns (n: int)
      requires 0 < size == buf.Length
      modifies this`pending, this`clock, this`offset, this`again, buf
      ensures clock >= old(clock) && offset + |pending| == old(offset + |pending|) && (n == -1 || n == 0 || n == size)
      ensures n == size ==> Got(buf[..], size, old(pending), pending)
      ensures n == 0 ==> pending == "" || pending == old(pending)
      ensures old(Delivering()) && |old(pending)| >= size ==> n == size
      ensures old(Delivering()) && |old(pending)| < size ==> pending == "" && (n == 0 ==> again)
      ensures InContentBudget(start, size) && size <= |data| && old(StillBlocked(data, start, since, retries)) ==>
        n == size || (n == 0 && again && retries < 6 && StillBlocked(data, start, since, retries + 1))
      ensures Answering(start, start + size) && |data| >= size && retries <= 6 ==>
        old(StillBlocked(data, start, since, retries)) ==>
          if n == 0 then again && StillBlocked(data, start, since, retries + 1)
          else n == size <==> InTime(since, start, |data|, size)
    {
      ghost var now, budget :=
        clock, InContentBudget(start, size) && size <= |data| && StillBlocked(data, start, since, retries);
      ghost var first := retries <= 6 && Answering(start, start + size) && |data| >= size &&
        StillBlocked(data, start, since, retries);
      n := Read(buf, 0, size);
      if budget && n == 0 {
        assert kernel(now, start).WouldBlock?;
        FewerThanSeven(start, since, now, size);
      }
      if first {
        assert Answers(start);
        if kernel(now, start).Chunk? {
          FirstChunk(since, now, start, |data|, size);
        }
      }
    }

    lemma FewerThanSeven(start: nat, since: nat, now: nat, size: nat)
      requires size > 0 && InContentBudget(start, size)
      requires since <= now && BlockedSince(start, since, now) && kernel(now, start).WouldBlock?
      ensures now - since < 6 && BlockedSince(start, since, now + 1)
    {
      assert Patient(start);
      assert BlockedSince(start, since, now + 1);
      WaitedLong(since, start, now + 1);
    }

    /** A frame is next, and the kernel blocks in it only before its first byte and, within the retries, in its
        content. */
    ghost predicate Kind(start: nat, body: string) {
      Prompt(start + 1, start + |Header(body)|) && InContentBudget(start + |Header(body)|, |body|)
    }

    ghost predicate Expects(body: string)
      reads this
    {
      Frame(body) <= pending && |body| <= LONG_MAX && json(body) && Kind(offset, body)
    }

    /** The header loop of RecvResponse (client.cpp, lines 32-57): a final response, or the announced size. */
    method ReadHeader(ghost body: string) returns (head: Head)
      modifies this`pending, this`clock, this`offset, this`again
      ensures clock >= old(clock) && offset + |pending| == old(offset + |pending|)
      ensures HeadFor(json, head, old(pending), pending)
      ensures old(Delivering()) && head.Early? ==> Faithful(head.response, pending, Receive(json, old(pending), -1))
      ensures old(Expects(body)) ==>
        ExpectedHead(body, head, old(pending), pending, Prompt(old(offset), old(offset) + 1))
    {
      var size := -1;
      ghost var data, start, expects := pending, offset, Expects(body);
      while true
        invariant clock >= old(clock) && offset + |pending| == start + |data|
        invariant HeaderSoFar(json, data, pending, size)
        invariant expects ==> Stage(data, body, pending, size)
        decreases |pending|
      {
        var done;
        head, done := HeaderTurn(size, data, start, body);
        if done {
          return;
        }
        size := head.size;
      }
    }

    /** One header line: the size so far, or the end. */
    method HeaderTurn(size: int, ghost data: string, ghost start: nat, ghost body: string) returns (head: Head,
                      done: bool)
      requires HeaderSoFar(json, data, pending, size) && offset + |pending| == start + |data|
      modifies this`pending, this`clock, this`offset, this`again
      ensures clock >= old(clock) && offset + |pending| == start + |data|
      ensures !done ==> |pending| < |old(pending)| && head.Complete? && HeaderSoFar(json, data, pending, head.size)
      ensures done ==> HeadFor(json, head, data, pending)
      ensures done && head.Early? && old(Delivering()) ==> Faithful(head.response, pending, Receive(json, data, -1))
      ensures Expected(data, start, body) && Stage(data, body, old(pending), size) ==>
        if done then ExpectedHead(body, head, data, pending, Prompt(start, start + 1))
        else head.Complete? && Stage(data, body, pending, head.size)
    {
      ghost var before, expected := pending, Expected(data, start, body) && Stage(data, body, pending, size);
      if expected {
        StageIsSmooth(data, start, body, pending, offset, size);
      }
      var line, overrun := NextLine();
      if Turn(line, overrun, size).1 {
        TurnEnds(json, data, before, size, line, overrun, pending);
        if Turn(line, overrun, size).0.Early? && Agrees(line, overrun, pending, ReadLine(before)) {
          TurnEndsWell(json, data, before, size, line, overrun, pending);
        }
      } else {
        TurnGoesOn(json, data, before, size, line, overrun, pending);
      }
      if expected {
        TurnIsExpected(data, body, before, size, line, overrun, pending, Prompt(start, start + 1));
      }
      var turn := Turn(line, overrun, size);
      return turn.0, turn.1;
    }

    ghost predicate Expected(data: string, start: nat, body: string) {
      Frame(body) <= data && |body| <= LONG_MAX && Kind(start, body)
    }

    lemma KindContent(start: nat, body: string, at: nat)
      requires Kind(start, body) && at == start + |Header(body)|
      ensures InContentBudget(at, |body|)
    {
    }

    lemma StageIsSmooth(data: string, start: nat, body: string, pending: string, offset: nat, size: int)
      requires Frame(body) <= data && |body| <= LONG_MAX && Kind(start, body) && Stage(data, body, pending, size)
      requires offset + |pending| == start + |data|
      ensures Smooth(offset, pending) && (pending != data ==> Prompt(offset, offset + 1))
      ensures StageLine(data, body, pending, size)
    {
      StageLines(data, body, pending, size);
    }

    /** RecvResponse (client.cpp, lines 30-72). Whatever the kernel answers, a message is either received as it was
        sent or not received at all; a kernel that delivers loses none, nor does one that blocks before the first byte
        of a frame or, within the retries, in its content. */
    method RecvResponse(ghost body: string) returns (r: Response)
      requires !json("")
      modifies this`pending, this`clock, this`offset, this`again
      ensures clock >= old(clock) && offset + |pending| == old(offset + |pending|)
      ensures r.EmptyPipe? || r.Illegal? || Faithful(r, pending, Receive(json, old(pending), -1))
      ensures r.EmptyPipe? ==> Interrupted(old(pending), pending)
      ensures r.Illegal? ==> !Receive(json, old(pending), -1).response.EmptyPipe?
      ensures old(Delivering()) ==> Faithful(r, pending, Receive(json, old(pending), -1))
      ensures old(Expects(body)) ==>
        ExpectedResponse(body, r, old(pending), pending, Prompt(old(offset), old(offset) + 1))
    {
      ghost var expects, prompt := Expects(body), Prompt(offset, offset + 1);
      var head := ReadHeader(body);
      if head.Early? {
        return head.response;
      }
      ghost var left := pending;
      if expects {
        ExpectedContent(json, body, old(pending), pending);
        KindContent(old(offset), body, offset);
      }
      r := Content(head.size);
      if expects {
        assert Faithful(r, pending, ReceiveContent(json, |body|, left));
        assert ExpectedResponse(body, r, old(pending), pending, prompt);
      }
    }

    /** The end of RecvResponse (lines 59-71). */
    method Content(size: int) returns (r: Response)
      requires !json("")
      modifies this`pending, this`clock, this`offset, this`again
      ensures clock >= old(clock) && offset + |pending| == old(offset + |pending|)
      ensures r.Illegal? || Faithful(r, pending, ReceiveContent(json, size, old(pending)))
      ensures old(Delivering()) ==> Faithful(r, pending, ReceiveContent(json, size, old(pending)))
      ensures 0 <= size <= |old(pending)| && InContentBudget(old(offset), size) ==>
        Faithful(r, pending, ReceiveContent(json, size, old(pending)))
      ensures 0 < size <= |old(pending)| && Answering(old(offset), old(offset) + size) ==>
        (r.Message? <==> InTime(old(clock), old(offset), |old(pending)|, size) && json(old(pending)[..size])) &&
        (r.Message? || r.Illegal?)
    {
      if size == -1 {
        return Illegal;
      }
      if size < 0 {
        return Throws;
      }
      var content := ReadMessageContent(size);
      r := if json(content) then Message(content) else Illegal;
    }
  }

  datatype Head = Complete(size: int) | Early(response: Response)

  /** What the header of a stream comes to, whatever the kernel does. */
  ghost predicate HeadFor(json: string -> bool, head: Head, data: string, left: string) {
    match head
    case Complete(size) => ReceiveContent(json, size, left) == Receive(json, data, -1)
    case Early(r) =>
      (r.EmptyPipe? && Interrupted(data, left)) ||
      ((r.Illegal? || r.Undefined?) && Faithful(r, left, Receive(json, data, -1)))
  }

  /** The header of an expected frame: read, or not touched because its first byte was late. */
  ghost predicate ExpectedHead(body: string, head: Head, data: string, left: string, prompt: bool) {
    (head == Early(EmptyPipe) && left == data && !prompt) ||
    (head == Complete(|body|) && |Header(body)| <= |data| && left == data[|Header(body)|..])
  }

  ghost predicate ExpectedResponse(body: string, r: Response, data: string, left: string, prompt: bool) {
    (r == EmptyPipe && left == data && !prompt) ||
    (r == Message(body) && |Frame(body)| <= |data| && left == data[|Frame(body)|..])
  }

  lemma ExpectedContent(json: string -> bool, body: string, data: string, left: string)
    requires Frame(body) <= data && |Header(body)| <= |data| && left == data[|Header(body)|..] && json(body)
    ensures |left| == |data| - |Header(body)| && |body| <= |left| && |Frame(body)| <= |data|
    ensures ReceiveContent(json, |body|, left) == Reply(Message(body), data[|Frame(body)|..])
  {
    var rest := data[|Frame(body)|..];
    assert data == Header(body) + (body + rest);
    assert left[..|body|] == body && left[|body|..] == rest;
  }

  ghost predicate HeaderSoFar(json: string -> bool, data: string, pending: string, size: int) {
    Receive(json, pending, size) == Receive(json, data, -1) && Passed(data, pending)
  }

  /** What RecvResponse makes of one line of the header (client.cpp, lines 34-57), and whether the loop ends there. */
  function Turn(line: string, overrun: bool, size: int): (Head, bool) {
    if overrun then (Early(Undefined), true)
    else if line == "" then (Early(EmptyPipe), true)
    else if !EndsWith(line, "\r\n") then (Early(Illegal), true)
    else if |line| == 2 then (Complete(size), true)
    else (Complete(HeaderSize(line[..|line| - 2], size)), false)
  }

  /** What readLine may return on this stream. */
  ghost predicate LineRead(before: string, line: string, overrun: bool, left: string) {
    if overrun then ReadLine(before).Overrun?
    else ReadLine(before) == Line(line, left) || (line == "" && Dropped(before, left))
  }

  lemma TurnEnds(json: string -> bool, data: string, before: string, size: int, line: string, overrun: bool,
                 left: string)
    requires HeaderSoFar(json, data, before, size) && LineRead(before, line, overrun, left)
    requires Turn(line, overrun, size).1
    ensures HeadFor(json, Turn(line, overrun, size).0, data, left)
  {
    if !overrun && line == "" {
      PassedAndDropped(data, before, left);
    } else if !overrun {
      assert ReadLine(before) == Line(line, left);
    }
  }

  lemma TurnEndsWell(json: string -> bool, data: string, before: string, size: int, line: string, overrun: bool,
                     left: string)
    requires HeaderSoFar(json, data, before, size) && Turn(line, overrun, size).1 && Turn(line, overrun, size).0.Early?
    requires Agrees(line, overrun, left, ReadLine(before))
    ensures Faithful(Turn(line, overrun, size).0.response, left, Receive(json, data, -1))
  {
  }

  lemma TurnGoesOn(json: string -> bool, data: string, before: string, size: int, line: string, overrun: bool,
                   left: string)
    requires HeaderSoFar(json, data, before, size) && LineRead(before, line, overrun, left)
    requires !Turn(line, overrun, size).1
    ensures var head := Turn(line, overrun, size).0;
      head.Complete? && |left| < |before| && HeaderSoFar(json, data, left, head.size)
  {
    PassedLine(data, before);
  }

  lemma TurnIsExpected(data: string, body: string, before: string, size: int, line: string, overrun: bool,
                       left: string, prompt: bool)
    requires Stage(data, body, before, size) && StageLine(data, body, before, size)
    requires Agrees(line, overrun, left, ReadLine(before)) ||
      (before == data && !prompt && line == "" && !overrun && left == before)
    ensures var turn := Turn(line, overrun, size);
      if turn.1 then ExpectedHead(body, turn.0, data, left, prompt)
      else turn.0.Complete? && Stage(data, body, left, turn.0.size)
  {
  }

  /** Some complete header lines have been read. */
  ghost predicate Passed(data: string, left: string)
    decreases |data|
  {
    left == data ||
    (var line := ReadLine(data);
     line.Line? && line.text != "" && EndsWith(line.text, "\r\n") && |line.text| > 2 && Passed(line.rest, left))
  }

  lemma {:induction false} PassedLine(data: string, left: string)
    requires Passed(data, left)
    requires var line := ReadLine(left); line.Line? && line.text != "" && EndsWith(line.text, "\r\n") && |line.text| > 2
    ensures Passed(data, ReadLine(left).rest)
    decreases |data|
  {
    if left != data {
      PassedLine(ReadLine(data).rest, left);
    }
  }

  lemma {:induction false} PassedAndDropped(data: string, before: string, left: string)
    requires Passed(data, before) && (Dropped(before, left) || ReadLine(before) == Line("", left))
    ensures Interrupted(data, left)
    decreases |data|
  {
    if before != data {
      PassedAndDropped(ReadLine(data).rest, before, left);
    }
  }

  /** Reading the header of an expected frame: before its first line, or before the empty line. */
  ghost predicate Stage(data: string, body: string, pending: string, size: int) {
    |Header(body)| <= |data| &&
    ((pending == data && size == -1) || (pending == data[|Header(body)| - 2..] && size == |body|))
  }

  /** The line to come, and the stage after it. */
  ghost predicate StageLine(data: string, body: string, pending: string, size: int) {
    var line := ReadLine(pending);
    |Header(body)| <= |data| && line.Line? && EndsWith(line.text, "\r\n") &&
    if pending == data then
      |line.text| > 2 && HeaderSize(line.text[..|line.text| - 2], size) == |body| &&
      line.rest == data[|Header(body)| - 2..]
    else
      line.text == "\r\n" && size == |body| && line.rest == data[|Header(body)|..]
  }

  lemma StageLines(data: string, body: string, pending: string, size: int)
    requires Frame(body) <= data && |body| <= LONG_MAX && Stage(data, body, pending, size)
    ensures StageLine(data, body, pending, size)
  {
    var rest := data[|Frame(body)|..];
    assert data == Frame(body) + rest;
    if pending == data {
      StageOne(body, rest);
    } else {
      StageTwo(body, rest);
    }
  }

  lemma StageOne(body: string, rest: string)
    requires |body| <= LONG_MAX
    ensures StageLine(Frame(body) + rest, body, Frame(body) + rest, -1)
  {
    var data, head := Frame(body) + rest, LEN_HEADER + Decimal(|body|);
    FrameFirstLine(body, rest);
    assert data[|Header(body)| - 2..] == "\r\n" + body + rest;
    var text := head + "\r\n";
    assert text[|text| - 2..] == "\r\n" && text[..|text| - 2] == head;
    HeaderAnnounces(|body|);
  }

  lemma StageTwo(body: string, rest: string)
    ensures var data := Frame(body) + rest; StageLine(data, body, data[|Header(body)| - 2..], |body|)
  {
    var data := Frame(body) + rest;
    assert data[|Header(body)| - 2..] == "" + "\r\n" + (body + rest);
    assert data[|Header(body)|..] == body + rest;
    StumpLine("", body + rest);
  }

  lemma NoNewlineYet(data: string, len: nat)
    requires len <= |data| && len <= BUFFER_SIZE && forall k :: 0 <= k < len ==> data[k] != '\n'
    ensures len == |data| ==> ReadLine(data) == NoLine
    ensures len == BUFFER_SIZE < |data| ==> ReadLine(data) == Overrun
    ensures ReadLine(data).Line? ==> len < |data| - |ReadLine(data).rest|
  {
    assert Find(data, '\n') >= len;
  }

  /** What a call of readLine returns is the next line, or nothing because there is none. */
  ghost predicate Agrees(text: string, overrun: bool, left: string, line: Line) {
    overrun == line.Overrun? && (line.NoLine? ==> text == "" && left == "") &&
    (line.Line? ==> text == line.text && left == line.rest)
  }

  lemma LineFound(data: string, len: nat)
    requires len < |data| && len < BUFFER_SIZE && data[len] == '\n' && forall k :: 0 <= k < len ==> data[k] != '\n'
    ensures ReadLine(data) == LineAt(data, len)
  {
    FindIs(data, '\n', len);
  }

  // ---------- the receiving thread ----------

  /** So far the first messages have been received, and the stream stands before the next frame, or is doomed. */
  ghost predicate Prefix(sent: seq<string>, bodies: seq<string>, pending: string) {
    |bodies| <= |sent| && bodies == sent[..|bodies|] && (pending == Frames(sent[|bodies|..]) || Doomed(pending))
  }

  lemma NextFrame(sent: seq<string>, k: nat)
    requires k < |sent|
    ensures Frames(sent[k..]) == Frame(sent[k]) + Frames(sent[k + 1..])
  {
    assert sent[k..][1..] == sent[k + 1..];
  }

  /** One poll, whatever the kernel does. */
  lemma PollKeepsPrefix(json: string -> bool, sent: seq<string>, bodies: seq<string>, before: string, r: Response,
                        after: string)
    requires Sendable(json, sent) && Prefix(sent, bodies, before)
    requires r.EmptyPipe? || r.Illegal? || Faithful(r, after, Receive(json, before, -1))
    requires r.EmptyPipe? ==> Interrupted(before, after)
    ensures r.EmptyPipe? || r.Illegal? || r.Message?
    ensures r.EmptyPipe? ==> Prefix(sent, bodies, after)
    ensures r.Message? ==> |bodies| < |sent| && r.text == sent[|bodies|] && after == Frames(sent[|bodies| + 1..])
  {
    var k := |bodies|;
    if Doomed(before) {
      DoomedIsRefused(json, before);
      if r.EmptyPipe? {
        DoomedStays(before, after);
      }
    } else if k < |sent| {
      NextFrame(sent, k);
      FrameIsReceived(json, sent[k], Frames(sent[k + 1..]));
      if r.EmptyPipe? {
        FrameInterrupted(sent[k], Frames(sent[k + 1..]), after);
      }
    } else {
      assert before == "";
      NothingIsHeard(json);
    }
  }

  lemma PrefixNext(sent: seq<string>, bodies: seq<string>, after: string)
    requires |bodies| < |sent| && bodies == sent[..|bodies|] && after == Frames(sent[|bodies| + 1..])
    ensures Prefix(sent, bodies + [sent[|bodies|]], after)
  {
    assert bodies + [sent[|bodies|]] == sent[..|bodies| + 1];
  }

  lemma NothingComes(json: string -> bool, before: string, r: Response, after: string)
    requires before == "" && (r.EmptyPipe? || r.Illegal? || r.Message?)
    requires r.EmptyPipe? || r.Illegal? || Faithful(r, after, Receive(json, before, -1))
    requires r.EmptyPipe? ==> Interrupted(before, after)
    requires r.Illegal? ==> !Receive(json, before, -1).response.EmptyPipe?
    ensures r.EmptyPipe? && after == ""
  {
    NothingIsHeard(json);
  }

  /** The kernel is kind in every frame. */
  ghost predicate KindToAll(endpoint: Endpoint, start: nat, bodies: seq<string>)
    decreases |bodies|
  {
    bodies == [] || (endpoint.Kind(start, bodies[0]) && KindToAll(endpoint, start + |Frame(bodies[0])|, bodies[1..]))
  }

  /** With a kind kernel: nothing is lost so far. */
  ghost predicate Intact(endpoint: Endpoint, sent: seq<string>, bodies: seq<string>, pending: string, offset: nat) {
    |bodies| <= |sent| && bodies == sent[..|bodies|] && pending == Frames(sent[|bodies|..]) &&
    KindToAll(endpoint, offset, sent[|bodies|..])
  }

  lemma IntactNext(endpoint: Endpoint, sent: seq<string>, bodies: seq<string>, pending: string, offset: nat)
    requires Intact(endpoint, sent, bodies, pending, offset) && |bodies| < |sent|
    ensures Frame(sent[|bodies|]) <= pending && endpoint.Kind(offset, sent[|bodies|])
    ensures var body := sent[|bodies|];
      Intact(endpoint, sent, bodies + [body], pending[|Frame(body)|..], offset + |Frame(body)|)
  {
    var k := |bodies|;
    NextFrame(sent, k);
    assert sent[k..][1..] == sent[k + 1..];
    assert bodies + [sent[k]] == sent[..k + 1];
  }

  /** One poll: the next message, or nothing; or the end. */
  method Poll(endpoint: Endpoint, ghost sent: seq<string>, ghost bodies: seq<string>) returns (r: Response)
    requires !endpoint.json("") && Sendable(endpoint.json, sent) && Prefix(sent, bodies, endpoint.pending)
    modifies endpoint`pending, endpoint`clock, endpoint`offset, endpoint`again
    ensures r.EmptyPipe? || r.Illegal? || r.Message?
    ensures r.EmptyPipe? ==> Prefix(sent, bodies, endpoint.pending)
    ensures r.Message? ==> Prefix(sent, bodies + [r.text], endpoint.pending)
    ensures old(Intact(endpoint, sent, bodies, endpoint.pending, endpoint.offset)) ==>
      !r.Illegal? &&
      Intact(endpoint, sent, if r.Message? then bodies + [r.text] else bodies, endpoint.pending, endpoint.offset)
  {
    ghost var before, at, intact :=
      endpoint.pending, endpoint.offset, Intact(endpoint, sent, bodies, endpoint.pending, endpoint.offset);
    ghost var next := if |bodies| < |sent| then sent[|bodies|] else "";
    if intact && |bodies| < |sent| {
      IntactNext(endpoint, sent, bodies, endpoint.pending, endpoint.offset);
    }
    r := endpoint.RecvResponse(next);
    PollKeepsPrefix(endpoint.json, sent, bodies, before, r, endpoint.pending);
    if r.Message? {
      PrefixNext(sent, bodies, endpoint.pending);
    }
    if intact {
      if |bodies| == |sent| {
        NothingComes(endpoint.json, before, r, endpoint.pending);
      }
      PollKeepsIntact(endpoint, sent, bodies, before, at, r, endpoint.pending, endpoint.offset);
    }
  }

  lemma PollKeepsIntact(endpoint: Endpoint, sent: seq<string>, bodies: seq<string>, before: string, at: nat,
                        r: Response, after: string, at': nat)
    requires Intact(endpoint, sent, bodies, before, at) && at' + |after| == at + |before|
    requires |bodies| == |sent| ==> r.EmptyPipe? && after == ""
    requires |bodies| < |sent| ==> exists prompt :: ExpectedResponse(sent[|bodies|], r, before, after, prompt)
    ensures !r.Illegal? && Intact(endpoint, sent, if r.Message? then bodies + [r.text] else bodies, after, at')
  {
    if |bodies| < |sent| {
      IntactNext(endpoint, sent, bodies, before, at);
    }
  }

  /** The receiving thread (LspEndpoint, client.cpp, lines 231-248) for a number of polls: it takes messages, polls
      again when the pipe is empty, and stops for good at a response it cannot read. Whatever the kernel does, it
      receives the first of the messages that were sent, in order and unaltered. If the kernel blocks only between
      frames or, within the retries, in their content, every poll yields the next message or leaves the stream as it
      was. */
  method ReceiveAll(endpoint: Endpoint, polls: nat, ghost sent: seq<string>) returns (bodies: seq<string>, idle: nat,
                    stopped: bool)
    requires !endpoint.json("") && Sendable(endpoint.json, sent) && endpoint.pending == Frames(sent)
    modifies endpoint`pending, endpoint`clock, endpoint`offset, endpoint`again
    ensures bodies <= sent
    ensures old(KindToAll(endpoint, endpoint.offset, sent)) ==>
      !stopped && |bodies| + idle == polls && endpoint.pending == Frames(sent[|bodies|..])
  {
    bodies, idle := [], 0;
    ghost var kind := KindToAll(endpoint, endpoint.offset, sent);
    assert sent[0..] == sent;
    for i := 0 to polls
      invariant Prefix(sent, bodies, endpoint.pending)
      invariant kind ==> Intact(endpoint, sent, bodies, endpoint.pending, endpoint.offset) && |bodies| + idle == i
    {
      var r := Poll(endpoint, sent, bodies);
      if r.EmptyPipe? {
        idle := idle + 1;
      } else if r.Message? {
        bodies := bodies + [r.text];
      } else {
        return bodies, idle, true;
      }
    }
    stopped := false;
  }

  /** With a kernel that never blocks while bytes are there, as many polls as messages receive them all. */
  method EveryMessageArrives(endpoint: Endpoint, ghost sent: seq<string>, polls: nat) returns (bodies: seq<string>)
    requires !endpoint.json("") && Sendable(endpoint.json, sent) && endpoint.pending == Frames(sent)
    requires polls == |sent| && endpoint.Delivering()
    modifies endpoint`pending, endpoint`clock, endpoint`offset, endpoint`again
    ensures bodies == sent && endpoint.pending == ""
  {
    bodies := [];
    for i := 0 to polls
      invariant |bodies| == i && bodies == sent[..i] && endpoint.pending == Frames(sent[i..]) && endpoint.Delivering()
    {
      NextFrame(sent, i);
      var text := NextMessage(endpoint, sent[i], Frames(sent[i + 1..]));
      bodies := bodies + [text];
    }
  }

  method NextMessage(endpoint: Endpoint, ghost body: string, ghost rest: string) returns (text: string)
    requires !endpoint.json("") && endpoint.Delivering() && endpoint.pending == Frame(body) + rest
    requires |body| <= LONG_MAX && endpoint.json(body)
    modifies endpoint`pending, endpoint`clock, endpoint`offset, endpoint`again
    ensures text == body && endpoint.pending == rest && endpoint.Delivering()
  {
    FrameIsReceived(endpoint.json, body, rest);
    var r := endpoint.RecvResponse(body);
    text := r.text;
  }
}
