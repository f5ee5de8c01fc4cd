/** include/mergebot/utils/sha1.h: the unrolled block transform and the streaming interface. */
module Sha1 {
  import opened Sha1Spec
  import opened HexPrint

  function Blk(block: seq<Word>, i: nat): Word
    requires |block| == 16 && i < 16
  {
    Mix(block[(i + 13) % 16], block[(i + 8) % 16], block[(i + 2) % 16], block[i])
  }

  // ---------- bit-level identities ----------

  function Choose(w: Word, x: Word, y: Word): Word {
    (w & (x ^ y)) ^ y
  }

  function Parity(w: Word, x: Word, y: Word): Word {
    w ^ x ^ y
  }

  function Majority(w: Word, x: Word, y: Word): Word {
    ((w | x) & y) | (w & x)
  }

  /** The right-hand side of every z += ... */
  function NewZ(z: Word, f: Word, word: Word, k: Word, v: Word): Word {
    z + (f + word + k + Rotl(v, 5))
  }

  lemma ChooseBits(w: Word, x: Word, y: Word)
    ensures (w & (x ^ y)) ^ y == (w & x) ^ (!w & y)
  {
  }

  lemma MajorityBits(w: Word, x: Word, y: Word)
    ensures ((w | x) & y) | (w & x) == (w & x) ^ (w & y) ^ (x & y)
  {
  }

  lemma ChooseForm(t: nat, w: Word, x: Word, y: Word)
    requires t < 20
    ensures Choose(w, x, y) == F(t, w, x, y)
  {
    ChooseBits(w, x, y);
  }

  lemma ParityForm(t: nat, w: Word, x: Word, y: Word)
    requires 20 <= t < 40 || 60 <= t
    ensures Parity(w, x, y) == F(t, w, x, y)
  {
  }

  lemma MajorityForm(t: nat, w: Word, x: Word, y: Word)
    requires 40 <= t < 60
    ensures Majority(w, x, y) == F(t, w, x, y)
  {
    MajorityBits(w, x, y);
  }

  lemma AddOrder(z: Word, f: Word, word: Word, k: Word, v: Word)
    ensures NewZ(z, f, word, k, v) == T(v, f, z, k, word)
  {
  }

  // ---------- the circular schedule ----------

  /** Before round t the block holds, in slot t mod 16, the word of round t - 16 (for t >= 16)
      and in the other slots the words of the fifteen rounds before t. */
  ghost predicate Window(block: array<Word>, run: Run, t: nat)
    requires t <= 80
    reads block
  {
    block[..] == Held(run.sched, t)
  }

  ghost function Held(sched: seq<Word>, t: nat): seq<Word>
    requires |sched| == 80 && t <= 80
  {
    seq(16, k requires 0 <= k < 16 => sched[Newest(t, k)])
  }

  /** The last round before max(t, 16) whose word lives in slot k. */
  ghost function Newest(t: nat, k: nat): (n: nat)
    requires k < 16 && t <= 80
    ensures n < 80
  {
    if t <= 16 then k
    else if k < t % 16 then t - t % 16 + k
    else t - t % 16 + k - 16
  }

  lemma Slots(t: nat)
    requires 16 <= t < 80
    ensures Newest(t, (t % 16 + 13) % 16) == t - 3
    ensures Newest(t, (t % 16 + 8) % 16) == t - 8
    ensures Newest(t, (t % 16 + 2) % 16) == t - 14
    ensures Newest(t, t % 16) == t - 16
  {
  }

  lemma NextSlot(t: nat, k: nat)
    requires 16 <= t < 80 && k < 16
    ensures Newest(t + 1, k) == if k == t % 16 then t else Newest(t, k)
  {
  }

  /** The first sixteen rounds read the block as it is. */
  lemma FirstWords(block: array<Word>, run: Run, t: nat)
    requires t < 16 && Window(block, run, t)
    ensures block.Length == 16 && block[t] == run.sched[t] && Window(block, run, t + 1)
  {
    assert |block[..]| == 16;
    assert block[..][t] == run.sched[t];
  }

  /** block[i] = blk(block, i), at round t. */
  method Schedule(block: array<Word>, i: nat, ghost run: Run, ghost t: nat)
    requires 16 <= t < 80 && i == t % 16 && Window(block, run, t)
    modifies block
    ensures block.Length == 16 && Window(block, run, t + 1) && block[i] == run.sched[t]
  {
    assert |block[..]| == 16;
    BlkIsSchedule(run, t);
    block[i] := Blk(block[..], i);
    assert block[..] == Held(run.sched, t)[i := run.sched[t]];
    HeldNext(run.sched, t);
  }

  lemma HeldNext(sched: seq<Word>, t: nat)
    requires |sched| == 80 && 16 <= t < 80
    ensures Held(sched, t)[t % 16 := sched[t]] == Held(sched, t + 1)
  {
    forall k: nat | k < 16 ensures Newest(t + 1, k) == if k == t % 16 then t else Newest(t, k) {
      NextSlot(t, k);
    }
  }

  lemma BlkIsSchedule(run: Run, t: nat)
    requires 16 <= t < 80
    ensures Blk(Held(run.sched, t), t % 16) == run.sched[t]
  {
    Slots(t);
    ScheduleWord(run, t);
  }

  lemma ScheduleWord(run: Run, t: nat)
    requires 16 <= t < 80
    ensures run.sched[t] == Mix(run.sched[t - 3], run.sched[t - 8], run.sched[t - 14], run.sched[t - 16])
  {
    assert Linked(run, t) && Linked(run, t - 3) && Linked(run, t - 8);
    assert Linked(run, t - 14) && Linked(run, t - 16);
  }

  /** The code's round, with its renamed variables, is the standard's round. */
  lemma AfterRound(run: Run, t: nat,
                   v: Word, w: Word, x: Word, y: Word, z: Word, sum: Word)
    requires t < 80 && run.states[t] == Vars(v, w, x, y, z)
    requires sum == NewZ(z, F(t, w, x, y), run.sched[t], K(t), v)
    ensures run.states[t + 1] == Vars(sum, v, Rotl(w, 30), x, y)
  {
    AddOrder(z, F(t, w, x, y), run.sched[t], K(t), v);
    assert Linked(run, t);
  }

  method R0(block: array<Word>, v: Word, w: Word, x: Word, y: Word, z: Word, i: nat,
            ghost run: Run, ghost t: nat)
    returns (w': Word, z': Word)
    requires t < 16 && i == t % 16 && Window(block, run, t)
    requires run.states[t] == Vars(v, w, x, y, z)
    ensures Window(block, run, t + 1) && run.states[t + 1] == Vars(z', v, w', x, y)
  {
    FirstWords(block, run, t);
    z' := NewZ(z, Choose(w, x, y), block[i], 0x5a827999, v);
    w' := Rotl(w, 30);
    ChooseForm(t, w, x, y);
    AfterRound(run, t, v, w, x, y, z, z');
  }

  method R1(block: array<Word>, v: Word, w: Word, x: Word, y: Word, z: Word, i: nat,
            ghost run: Run, ghost t: nat)
    returns (w': Word, z': Word)
    requires 16 <= t < 20 && i == t % 16 && Window(block, run, t)
    requires run.states[t] == Vars(v, w, x, y, z)
    modifies block
    ensures Window(block, run, t + 1) && run.states[t + 1] == Vars(z', v, w', x, y)
  {
    Schedule(block, i, run, t);
    z' := NewZ(z, Choose(w, x, y), block[i], 0x5a827999, v);
    w' := Rotl(w, 30);
    ChooseForm(t, w, x, y);
    AfterRound(run, t, v, w, x, y, z, z');
  }

  method R2(block: array<Word>, v: Word, w: Word, x: Word, y: Word, z: Word, i: nat,
            ghost run: Run, ghost t: nat)
    returns (w': Word, z': Word)
    requires 20 <= t < 40 && i == t % 16 && Window(block, run, t)
    requires run.states[t] == Vars(v, w, x, y, z)
    modifies block
    ensures Window(block, run, t + 1) && run.states[t + 1] == Vars(z', v, w', x, y)
  {
    Schedule(block, i, run, t);
    z' := NewZ(z, Parity(w, x, y), block[i], 0x6ed9eba1, v);
    w' := Rotl(w, 30);
    ParityForm(t, w, x, y);
    AfterRound(run, t, v, w, x, y, z, z');
  }

  method R3(block: array<Word>, v: Word, w: Word, x: Word, y: Word, z: Word, i: nat,
            ghost run: Run, ghost t: nat)
    returns (w': Word, z': Word)
    requires 40 <= t < 60 && i == t % 16 && Window(block, run, t)
    requires run.states[t] == Vars(v, w, x, y, z)
    modifies block
    ensures Window(block, run, t + 1) && run.states[t + 1] == Vars(z', v, w', x, y)
  {
    Schedule(block, i, run, t);
    z' := NewZ(z, Majority(w, x, y), block[i], 0x8f1bbcdc, v);
    w' := Rotl(w, 30);
    MajorityForm(t, w, x, y);
    AfterRound(run, t, v, w, x, y, z, z');
  }

  method R4(block: array<Word>, v: Word, w: Word, x: Word, y: Word, z: Word, i: nat,
            ghost run: Run, ghost t: nat)
    returns (w': Word, z': Word)
    requires 60 <= t < 80 && i == t % 16 && Window(block, run, t)
    requires run.states[t] == Vars(v, w, x, y, z)
    modifies block
    ensures Window(block, run, t + 1) && run.states[t + 1] == Vars(z', v, w', x, y)
  {
    Schedule(block, i, run, t);
    z' := NewZ(z, Parity(w, x, y), block[i], 0xca62c1d6, v);
    w' := Rotl(w, 30);
    ParityForm(t, w, x, y);
    AfterRound(run, t, v, w, x, y, z, z');
  }

  /** Lines 139-148 of transform. */
  method Rounds0(block: array<Word>, a0: Word, b0: Word, c0: Word, d0: Word, e0: Word, ghost run: Run, ghost t: nat)
    returns (a: Word, b: Word, c: Word, d: Word, e: Word)
    requires t == 0 && Window(block, run, t) && run.states[t] == Vars(a0, b0, c0, d0, e0)
    modifies block
    ensures Window(block, run, t + 10) && run.states[t + 10] == Vars(a, b, c, d, e)
  {
    a, b, c, d, e := a0, b0, c0, d0, e0;
    b, e := R0(block, a, b, c, d, e, 0, run, t);
    a, d := R0(block, e, a, b, c, d, 1, run, t + 1);
    e, c := R0(block, d, e, a, b, c, 2, run, t + 2);
    d, b := R0(block, c, d, e, a, b, 3, run, t + 3);
    c, a := R0(block, b, c, d, e, a, 4, run, t + 4);
    b, e := R0(block, a, b, c, d, e, 5, run, t + 5);
    a, d := R0(block, e, a, b, c, d, 6, run, t + 6);
    e, c := R0(block, d, e, a, b, c, 7, run, t + 7);
    d, b := R0(block, c, d, e, a, b, 8, run, t + 8);
    c, a := R0(block, b, c, d, e, a, 9, run, t + 9);
  }

  /** Lines 149-158 of transform. */
  method Rounds10(block: array<Word>, a0: Word, b0: Word, c0: Word, d0: Word, e0: Word, ghost run: Run, ghost t: nat)
    returns (a: Word, b: Word, c: Word, d: Word, e: Word)
    requires t == 10 && Window(block, run, t) && run.states[t] == Vars(a0, b0, c0, d0, e0)
    modifies block
    ensures Window(block, run, t + 10) && run.states[t + 10] == Vars(a, b, c, d, e)
  {
    a, b, c, d, e := a0, b0, c0, d0, e0;
    b, e := R0(block, a, b, c, d, e, 10, run, t);
    a, d := R0(block, e, a, b, c, d, 11, run, t + 1);
    e, c := R0(block, d, e, a, b, c, 12, run, t + 2);
    d, b := R0(block, c, d, e, a, b, 13, run, t + 3);
    c, a := R0(block, b, c, d, e, a, 14, run, t + 4);
    b, e := R0(block, a, b, c, d, e, 15, run, t + 5);
    a, d := R1(block, e, a, b, c, d, 0, run, t + 6);
    e, c := R1(block, d, e, a, b, c, 1, run, t + 7);
    d, b := R1(block, c, d, e, a, b, 2, run, t + 8);
    c, a := R1(block, b, c, d, e, a, 3, run, t + 9);
  }

  /** Lines 159-168 of transform. */
  method Rounds20(block: array<Word>, a0: Word, b0: Word, c0: Word, d0: Word, e0: Word, ghost run: Run, ghost t: nat)
    returns (a: Word, b: Word, c: Word, d: Word, e: Word)
    requires t == 20 && Window(block, run, t) && run.states[t] == Vars(a0, b0, c0, d0, e0)
    modifies block
    ensures Window(block, run, t + 10) && run.states[t + 10] == Vars(a, b, c, d, e)
  {
    a, b, c, d, e := a0, b0, c0, d0, e0;
    b, e := R2(block, a, b, c, d, e, 4, run, t);
    a, d := R2(block, e, a, b, c, d, 5, run, t + 1);
    e, c := R2(block, d, e, a, b, c, 6, run, t + 2);
    d, b := R2(block, c, d, e, a, b, 7, run, t + 3);
    c, a := R2(block, b, c, d, e, a, 8, run, t + 4);
    b, e := R2(block, a, b, c, d, e, 9, run, t + 5);
    a, d := R2(block, e, a, b, c, d, 10, run, t + 6);
    e, c := R2(block, d, e, a, b, c, 11, run, t + 7);
    d, b := R2(block, c, d, e, a, b, 12, run, t + 8);
    c, a := R2(block, b, c, d, e, a, 13, run, t + 9);
  }

  /** Lines 169-178 of transform. */
  method Rounds30(block: array<Word>, a0: Word, b0: Word, c0: Word, d0: Word, e0: Word, ghost run: Run, ghost t: nat)
    returns (a: Word, b: Word, c: Word, d: Word, e: Word)
    requires t == 30 && Window(block, run, t) && run.states[t] == Vars(a0, b0, c0, d0, e0)
    modifies block
    ensures Window(block, run, t + 10) && run.states[t + 10] == Vars(a, b, c, d, e)
  {
    a, b, c, d, e := a0, b0, c0, d0, e0;
    b, e := R2(block, a, b, c, d, e, 14, run, t);
    a, d := R2(block, e, a, b, c, d, 15, run, t + 1);
    e, c := R2(block, d, e, a, b, c, 0, run, t + 2);
    d, b := R2(block, c, d, e, a, b, 1, run, t + 3);
    c, a := R2(block, b, c, d, e, a, 2, run, t + 4);
    b, e := R2(block, a, b, c, d, e, 3, run, t + 5);
    a, d := R2(block, e, a, b, c, d, 4, run, t + 6);
    e, c := R2(block, d, e, a, b, c, 5, run, t + 7);
    d, b := R2(block, c, d, e, a, b, 6, run, t + 8);
    c, a := R2(block, b, c, d, e, a, 7, run, t + 9);
  }

  /** Lines 179-188 of transform. */
  method Rounds40(block: array<Word>, a0: Word, b0: Word, c0: Word, d0: Word, e0: Word, ghost run: Run, ghost t: nat)
    returns (a: Word, b: Word, c: Word, d: Word, e: Word)
    requires t == 40 && Window(block, run, t) && run.states[t] == Vars(a0, b0, c0, d0, e0)
    modifies block
    ensures Window(block, run, t + 10) && run.states[t + 10] == Vars(a, b, c, d, e)
  {
    a, b, c, d, e := a0, b0, c0, d0, e0;
    b, e := R3(block, a, b, c, d, e, 8, run, t);
    a, d := R3(block, e, a, b, c, d, 9, run, t + 1);
    e, c := R3(block, d, e, a, b, c, 10, run, t + 2);
    d, b := R3(block, c, d, e, a, b, 11, run, t + 3);
    c, a := R3(block, b, c, d, e, a, 12, run, t + 4);
    b, e := R3(block, a, b, c, d, e, 13, run, t + 5);
    a, d := R3(block, e, a, b, c, d, 14, run, t + 6);
    e, c := R3(block, d, e, a, b, c, 15, run, t + 7);
    d, b := R3(block, c, d, e, a, b, 0, run, t + 8);
    c, a := R3(block, b, c, d, e, a, 1, run, t + 9);
  }

  /** Lines 189-198 of transform. */
  method Rounds50(block: array<Word>, a0: Word, b0: Word, c0: Word, d0: Word, e0: Word, ghost run: Run, ghost t: nat)
    returns (a: Word, b: Word, c: Word, d: Word, e: Word)
    requires t == 50 && Window(block, run, t) && run.states[t] == Vars(a0, b0, c0, d0, e0)
    modifies block
    ensures Window(block, run, t + 10) && run.states[t + 10] == Vars(a, b, c, d, e)
  {
    a, b, c, d, e := a0, b0, c0, d0, e0;
    b, e := R3(block, a, b, c, d, e, 2, run, t);
    a, d := R3(block, e, a, b, c, d, 3, run, t + 1);
    e, c := R3(block, d, e, a, b, c, 4, run, t + 2);
    d, b := R3(block, c, d, e, a, b, 5, run, t + 3);
    c, a := R3(block, b, c, d, e, a, 6, run, t + 4);
    b, e := R3(block, a, b, c, d, e, 7, run, t + 5);
    a, d := R3(block, e, a, b, c, d, 8, run, t + 6);
    e, c := R3(block, d, e, a, b, c, 9, run, t + 7);
    d, b := R3(block, c, d, e, a, b, 10, run, t + 8);
    c, a := R3(block, b, c, d, e, a, 11, run, t + 9);
  }

  /** Lines 199-208 of transform. */
  method Rounds60(block: array<Word>, a0: Word, b0: Word, c0: Word, d0: Word, e0: Word, ghost run: Run, ghost t: nat)
    returns (a: Word, b: Word, c: Word, d: Word, e: Word)
    requires t == 60 && Window(block, run, t) && run.states[t] == Vars(a0, b0, c0, d0, e0)
    modifies block
    ensures Window(block, run, t + 10) && run.states[t + 10] == Vars(a, b, c, d, e)
  {
    a, b, c, d, e := a0, b0, c0, d0, e0;
    b, e := R4(block, a, b, c, d, e, 12, run, t);
    a, d := R4(block, e, a, b, c, d, 13, run, t + 1);
    e, c := R4(block, d, e, a, b, c, 14, run, t + 2);
    d, b := R4(block, c, d, e, a, b, 15, run, t + 3);
    c, a := R4(block, b, c, d, e, a, 0, run, t + 4);
    b, e := R4(block, a, b, c, d, e, 1, run, t + 5);
    a, d := R4(block, e, a, b, c, d, 2, run, t + 6);
    e, c := R4(block, d, e, a, b, c, 3, run, t + 7);
    d, b := R4(block, c, d, e, a, b, 4, run, t + 8);
    c, a := R4(block, b, c, d, e, a, 5, run, t + 9);
  }

  /** Lines 209-218 of transform. */
  method Rounds70(block: array<Word>, a0: Word, b0: Word, c0: Word, d0: Word, e0: Word, ghost run: Run, ghost t: nat)
    returns (a: Word, b: Word, c: Word, d: Word, e: Word)
    requires t == 70 && Window(block, run, t) && run.states[t] == Vars(a0, b0, c0, d0, e0)
    modifies block
    ensures Window(block, run, t + 10) && run.states[t + 10] == Vars(a, b, c, d, e)
  {
    a, b, c, d, e := a0, b0, c0, d0, e0;
    b, e := R4(block, a, b, c, d, e, 6, run, t);
    a, d := R4(block, e, a, b, c, d, 7, run, t + 1);
    e, c := R4(block, d, e, a, b, c, 8, run, t + 2);
    d, b := R4(block, c, d, e, a, b, 9, run, t + 3);
    c, a := R4(block, b, c, d, e, a, 10, run, t + 4);
    b, e := R4(block, a, b, c, d, e, 11, run, t + 5);
    a, d := R4(block, e, a, b, c, d, 12, run, t + 6);
    e, c := R4(block, d, e, a, b, c, 13, run, t + 7);
    d, b := R4(block, c, d, e, a, b, 14, run, t + 8);
    c, a := R4(block, b, c, d, e, a, 15, run, t + 9);
  }

  ghost function Digest(d: array<Word>): Vars
    requires d.Length == 5
    reads d
  {
    Vars(d[0], d[1], d[2], d[3], d[4])
  }

  /** Lines 139-218 of transform. */
  method AllRounds(block: array<Word>, a0: Word, b0: Word, c0: Word, d0: Word, e0: Word)
    returns (a: Word, b: Word, c: Word, d: Word, e: Word)
    requires block.Length == 16
    modifies block
    ensures Vars(a, b, c, d, e) == Rounds(Vars(a0, b0, c0, d0, e0), old(block[..]), 80)
  {
    ghost var run: Run := RunOf(Vars(a0, b0, c0, d0, e0), block[..]);
    ghost var t := 0;
    a, b, c, d, e := a0, b0, c0, d0, e0;
    FirstWindow(block, run);
    a, b, c, d, e := Rounds0(block, a, b, c, d, e, run, t);
    a, b, c, d, e := Rounds10(block, a, b, c, d, e, run, t + 10);
    a, b, c, d, e := Rounds20(block, a, b, c, d, e, run, t + 20);
    a, b, c, d, e := Rounds30(block, a, b, c, d, e, run, t + 30);
    a, b, c, d, e := Rounds40(block, a, b, c, d, e, run, t + 40);
    a, b, c, d, e := Rounds50(block, a, b, c, d, e, run, t + 50);
    a, b, c, d, e := Rounds60(block, a, b, c, d, e, run, t + 60);
    a, b, c, d, e := Rounds70(block, a, b, c, d, e, run, t + 70);
  }

  /** Lines 221-225 of transform. */
  method AddInto(digest: array<Word>, a: Word, b: Word, c: Word, d: Word, e: Word)
    requires digest.Length == 5
    modifies digest
    ensures Digest(digest) == AddBack(old(Digest(digest)), Vars(a, b, c, d, e))
  {
    digest[0] := Add(digest[0], a);
    digest[1] := Add(digest[1], b);
    digest[2] := Add(digest[2], c);
    digest[3] := Add(digest[3], d);
    digest[4] := Add(digest[4], e);
  }

  /** Hashes a single block: the unrolled rounds, their renamed variables and the circular block
      compute what the standard computes with an explicit schedule of 80 words. */
  method Transform(digest: array<Word>, block: array<Word>, transforms: nat) returns (transforms': nat)
    requires digest.Length == 5 && block.Length == 16 && digest != block
    modifies digest, block
    ensures Digest(digest) == Sha1Compressor()(old(Digest(digest)), old(block[..]))
    ensures transforms' == (transforms + 1) % TWO_TO_THE_64
  {
    ghost var m := block[..];
    ghost var h := Digest(digest);
    var a, b, c, d, e := AllRounds(block, digest[0], digest[1], digest[2], digest[3], digest[4]);
    assert Compress(h, m) == AddBack(h, Vars(a, b, c, d, e));
    AddInto(digest, a, b, c, d, e);
    transforms' := (transforms + 1) % TWO_TO_THE_64;
  }

  lemma FirstWindow(block: array<Word>, run: Run)
    requires block[..] == run.m
    ensures Window(block, run, 0)
  {
    forall k: nat | k < 16 ensures run.sched[k] == run.m[k] {
      assert Linked(run, k);
    }
  }

  // ---------- the streaming interface ----------

  /** The shifts and ors of buffer_to_block. */
  function Packed(b0: Byte, b1: Byte, b2: Byte, b3: Byte): Word {
    (b3 as Word) | ((b2 as Word) << 8) | ((b1 as Word) << 16) | ((b0 as Word) << 24)
  }

  lemma PackedIsBigEndian(b0: Byte, b1: Byte, b2: Byte, b3: Byte)
    ensures Packed(b0, b1, b2, b3) == BigEndian(b0, b1, b2, b3)
  {
  }

  method BufferToBlock(buffer: seq<Byte>, block: array<Word>)
    requires |buffer| >= 64 && block.Length == 16
    modifies block
    ensures block[..] == Words(buffer[..64])
  {
    for i := 0 to 16
      invariant forall k :: 0 <= k < i ==> block[k] == Words(buffer[..64])[k]
    {
      block[i] := Packed(buffer[4 * i], buffer[4 * i + 1], buffer[4 * i + 2], buffer[4 * i + 3]);
      PackedIsBigEndian(buffer[4 * i], buffer[4 * i + 1], buffer[4 * i + 2], buffer[4 * i + 3]);
    }
  }

  /** The state of the object, started from h, after it has been fed the whole blocks and then the buffer. */
  ghost predicate Fed(f: Compressor, h: Vars, digest: Vars, whole: seq<Byte>, buffer: seq<Byte>, transforms: nat) {
    |whole| % 64 == 0 && |buffer| < 64 &&
    digest == Fold(f, h, Words(whole)) && transforms == |whole| / 64 % TWO_TO_THE_64
  }

  lemma FoldBlock(f: Compressor, h: Vars, whole: seq<Byte>, block: seq<Byte>)
    requires |whole| % 64 == 0 && |block| == 64
    ensures |Words(block)| == 16
    ensures Fold(f, h, Words(whole + block)) == f(Fold(f, h, Words(whole)), Words(block))
  {
    WordsConcat(whole, block);
    assert |Words(whole)| % 16 == 0 by {
      assert |Words(whole)| == |whole| / 4;
    }
    assert |Words(block)| == 16;
    FoldLast(f, h, Words(whole), Words(block));
  }

  lemma FoldLast(f: Compressor, h: Vars, a: seq<Word>, m: seq<Word>)
    requires |a| % 16 == 0 && |m| == 16
    ensures Fold(f, h, a + m) == f(Fold(f, h, a), m)
  {
    FoldConcat(f, h, a, m);
    FoldOne(f, Fold(f, h, a), m);
  }

  /** A full buffer is hashed and emptied. */
  lemma FedBlock(f: Compressor, h: Vars, digest: Vars, whole: seq<Byte>, buffer: seq<Byte>, transforms: nat,
                 block: seq<Byte>)
    requires Fed(f, h, digest, whole, buffer, transforms) && |block| == 64
    ensures |Words(block)| == 16
    ensures Fed(f, h, f(digest, Words(block)), whole + block, [], (transforms + 1) % TWO_TO_THE_64)
  {
    FoldBlock(f, h, whole, block);
    assert |whole + block| / 64 == |whole| / 64 + 1;
    CountStep(|whole| / 64);
  }

  lemma CountStep(q: nat)
    ensures (q % TWO_TO_THE_64 + 1) % TWO_TO_THE_64 == (q + 1) % TWO_TO_THE_64
  {
  }

  // ---------- the end of the message ----------

  lemma Associative<T>(a: seq<T>, b: seq<T>, c: seq<T>)
    ensures a + b + c == a + (b + c)
  {
  }

  lemma SameTrailer(whole: nat, rest: nat)
    requires whole % 64 == 0
    ensures Trailer(whole + rest) == Trailer(rest)
  {
    ZeroCountUnique(rest, ZeroCount(whole + rest));
  }

  /** Whole blocks first, then the padding of what is left in the buffer. */
  lemma PaddedSplit(whole: seq<Byte>, buffer: seq<Byte>, length: seq<Word>)
    requires |whole| % 64 == 0
    ensures PadWith(whole + buffer, length) == Words(whole) + PadWith(buffer, length)
  {
    SameTrailer(|whole|, |buffer|);
    WordsSplit(whole, buffer, Trailer(|buffer|), length);
  }

  lemma WordsSplit(whole: seq<Byte>, buffer: seq<Byte>, t: seq<Byte>, length: seq<Word>)
    requires |whole| % 64 == 0
    ensures Words(whole + buffer + t) + length == Words(whole) + (Words(buffer + t) + length)
  {
    Associative(whole, buffer, t);
    WordsConcat(whole, buffer + t);
    Associative(Words(whole), Words(buffer + t), length);
  }

  lemma FoldSplit(f: Compressor, h: Vars, words: seq<Word>, a: seq<Word>, b: seq<Word>)
    requires words == a + b && |a| % 16 == 0
    ensures Fold(f, h, words) == Fold(f, Fold(f, h, a), b)
  {
    FoldConcat(f, h, a, b);
  }

  lemma WholeBlocks(bytes: seq<Byte>)
    requires |bytes| % 64 == 0
    ensures |Words(bytes)| % 16 == 0
  {
    assert |Words(bytes)| == |bytes| / 4;
  }

  lemma HashFromTail(f: Compressor, h: Vars, whole: seq<Byte>, buffer: seq<Byte>, length: seq<Word>)
    requires |whole| % 64 == 0
    ensures Fold(f, h, PadWith(whole + buffer, length)) == Fold(f, Fold(f, h, Words(whole)), PadWith(buffer, length))
  {
    PaddedSplit(whole, buffer, length);
    WholeBlocks(whole);
    FoldSplit(f, h, PadWith(whole + buffer, length), Words(whole), PadWith(buffer, length));
  }

  /** total_bits, computed modulo 2^64 from a counter that wraps too. */
  lemma TotalBits(whole: nat, buffer: nat, transforms: nat)
    requires whole % 64 == 0 && transforms == whole / 64 % TWO_TO_THE_64
    ensures (transforms * 64 + buffer) * 8 % TWO_TO_THE_64 == 8 * (whole + buffer) % TWO_TO_THE_64
  {
    WrapBits(whole / 64, buffer);
  }

  lemma AddMultiple(x: nat, k: nat)
    ensures (x + k * TWO_TO_THE_64) % TWO_TO_THE_64 == x % TWO_TO_THE_64
  {
  }

  lemma WrapBits(q: nat, b: nat)
    ensures (q % TWO_TO_THE_64 * 64 + b) * 8 % TWO_TO_THE_64 == (q * 64 + b) * 8 % TWO_TO_THE_64
  {
    var r, d := q % TWO_TO_THE_64, q / TWO_TO_THE_64;
    assert q == r + d * TWO_TO_THE_64;
    AddMultiple((r * 64 + b) * 8, d * 512);
    assert (q * 64 + b) * 8 == (r * 64 + b) * 8 + (d * 512) * TWO_TO_THE_64;
  }

  lemma FinalHash(digest: Vars, whole: seq<Byte>, buffer: seq<Byte>, transforms: nat, total: nat)
    requires Fed(Sha1Compressor(), H0, digest, whole, buffer, transforms)
    requires total == (transforms * 64 + |buffer|) * 8 % TWO_TO_THE_64
    ensures Hash(whole + buffer) == Fold(Sha1Compressor(), digest, PadWith(buffer, LengthWords(total)))
  {
    TotalBits(|whole|, |buffer|, transforms);
    HashFromTail(Sha1Compressor(), H0, whole, buffer, LengthWords(total));
  }

  /** One last block: the bytes fit together with the length (line 281 not taken). */
  lemma OneBlockTail(buffer: seq<Byte>, length: seq<Word>, first: seq<Word>)
    requires |buffer| < 56 && first == Words(buffer + [0x80] + Zeros(63 - |buffer|))
    ensures |first| == 16 && PadWith(buffer, length) == first[..14] + length
  {
    ZeroCountUnique(|buffer|, 55 - |buffer|);
    var short := buffer + Trailer(|buffer|);
    assert buffer + [0x80] + Zeros(63 - |buffer|) == short + Zeros(8);
    WordsConcat(short, Zeros(8));
  }

  /** Two last blocks: the length goes into a block of its own (line 281 taken). */
  lemma TwoBlockTail(buffer: seq<Byte>, length: seq<Word>, first: seq<Word>)
    requires 56 <= |buffer| < 64 && first == Words(buffer + [0x80] + Zeros(63 - |buffer|))
    ensures |first| == 16 && PadWith(buffer, length) == first + (seq(14, _ => 0 as Word) + length)
  {
    ZeroCountUnique(|buffer|, 119 - |buffer|);
    var full := buffer + [0x80] + Zeros(63 - |buffer|);
    assert buffer + Trailer(|buffer|) == full + Zeros(56);
    WordsConcat(full, Zeros(56));
    ZeroWords(14);
  }

  lemma FoldTwo(f: Compressor, h: Vars, a: seq<Word>, b: seq<Word>)
    requires |a| == 16 && |b| == 16
    ensures Fold(f, h, a + b) == f(f(h, a), b)
  {
    FoldConcat(f, h, a, b);
    FoldOne(f, h, a);
    FoldOne(f, f(h, a), b);
  }

  lemma TakeNext(before: seq<Byte>, stream: seq<Byte>, pos: nat, got: nat)
    requires pos + got <= |stream|
    ensures before + stream[..pos] + stream[pos..pos + got] == before + stream[..pos + got]
  {
  }

  class SHA1 {
    const digest: array<Word>
    var buffer: seq<Byte>
    var transforms: nat
    ghost var whole: seq<Byte>  // the bytes already hashed

    /** Everything fed to the object since it was created or last reset. */
    ghost function Msg(): seq<Byte>
      reads this
    {
      whole + buffer
    }

    ghost predicate Valid()
      reads this, digest
    {
      digest.Length == 5 && Fed(Sha1Compressor(), H0, Digest(digest), whole, buffer, transforms)
    }

    constructor ()
      ensures Valid() && fresh(digest) && Msg() == []
    {
      digest := new Word[5];
      buffer, transforms, whole := [], 0, [];
      new;
      Reset();
    }

    method Reset()
      requires digest.Length == 5
      modifies this, digest
      ensures Valid() && Msg() == []
    {
      digest[0], digest[1], digest[2], digest[3], digest[4] :=
        0x67452301, 0xefcdab89, 0x98badcfe, 0x10325476, 0xc3d2e1f0;
      buffer, transforms, whole := [], 0, [];
    }

    /** Lines 256-259 of update. */
    method HashBuffer()
      requires digest.Length == 5 && |buffer| == 64
      modifies this, digest
      ensures Digest(digest) == Sha1Compressor()(old(Digest(digest)), Words(old(buffer)))
      ensures transforms == (old(transforms) + 1) % TWO_TO_THE_64 && buffer == [] && whole == old(whole)
    {
      var block := new Word[16];
      assert buffer[..64] == buffer;
      BufferToBlock(buffer, block);
      transforms := Transform(digest, block, transforms);
      buffer := [];
    }

    /** Takes in bytes for which the buffer has room; says whether they filled it. */
    method Absorb(more: seq<Byte>) returns (full: bool)
      requires Valid() && |buffer| + |more| <= 64
      modifies this, digest
      ensures Valid() && Msg() == old(Msg()) + more
      ensures full <==> old(|buffer|) + |more| == 64
    {
      full := |buffer| + |more| == 64;
      if full {
        FedBlock(Sha1Compressor(), H0, Digest(digest), whole, buffer, transforms, buffer + more);
        ghost var block := buffer + more;
        buffer := buffer + more;
        HashBuffer();
        whole := whole + block;
      } else {
        buffer := buffer + more;
      }
    }

    /** Feeds a whole stream: each read takes what the buffer still has room for, or what is left. */
    method Update(stream: seq<Byte>)
      requires Valid()
      modifies this, digest
      ensures Valid() && Msg() == old(Msg()) + stream
    {
      var pos := 0;
      while true
        invariant 0 <= pos <= |stream| && Valid() && Msg() == old(Msg()) + stream[..pos]
        decreases |stream| - pos
      {
        var room := 64 - |buffer|;
        var got := if |stream| - pos < room then |stream| - pos else room;
        TakeNext(old(Msg()), stream, pos, got);
        var full := Absorb(stream[pos..pos + got]);
        pos := pos + got;
        if !full {
          assert stream[..pos] == stream;
          return;
        }
      }
    }

    /** Lines 272-276 of final. */
    method PadBuffer() returns (origSize: nat)
      requires |buffer| < 64
      modifies this`buffer
      ensures origSize == old(|buffer|) + 1
      ensures buffer == old(buffer) + [0x80] + Zeros(64 - origSize)
    {
      buffer := buffer + [0x80];
      origSize := |buffer|;
      while |buffer| < 64
        invariant origSize <= |buffer| <= 64 && buffer == old(buffer) + [0x80] + Zeros(|buffer| - origSize)
      {
        buffer := buffer + [0x00];
      }
    }

    /** Lines 282-285 of final: the bytes leave no room for the length. */
    method HashSpill(block: array<Word>)
      requires digest.Length == 5 && block.Length == 16 && block != digest
      modifies this`transforms, digest, block
      ensures Digest(digest) == Sha1Compressor()(old(Digest(digest)), old(block[..]))
      ensures block[..14] == seq(14, _ => 0 as Word)
    {
      transforms := Transform(digest, block, transforms);
      ghost var d := Digest(digest);
      for i := 0 to 14
        invariant Digest(digest) == d
        invariant forall k :: 0 <= k < i ==> block[k] == 0
      {
        block[i] := 0;
      }
    }

    /** Lines 289-291 of final: the length goes into the last two words. */
    method HashLast(block: array<Word>, totalBits: nat)
      requires digest.Length == 5 && block.Length == 16 && block != digest && totalBits < TWO_TO_THE_64
      modifies this`transforms, digest, block
      ensures Digest(digest) == Sha1Compressor()(old(Digest(digest)), old(block[..14]) + LengthWords(totalBits))
    {
      ghost var d, words := Digest(digest), block[..14] + LengthWords(totalBits);
      block[15] := (totalBits % TWO_TO_THE_32) as Word;
      block[14] := (totalBits / TWO_TO_THE_32) as Word;
      assert block[..] == words;
      transforms := Transform(digest, block, transforms);
    }

    /** Lines 278-291 of final. */
    method LastBlocks(ghost rest: seq<Byte>, origSize: nat, totalBits: nat)
      requires digest.Length == 5 && |rest| < 64 && buffer == rest + [0x80] + Zeros(63 - |rest|)
      requires origSize == |rest| + 1 && totalBits < TWO_TO_THE_64
      modifies this`transforms, digest
      ensures Digest(digest) == Fold(Sha1Compressor(), old(Digest(digest)), PadWith(rest, LengthWords(totalBits)))
    {
      ghost var d, length := Digest(digest), LengthWords(totalBits);
      var block := new Word[16];
      assert buffer[..64] == buffer;
      BufferToBlock(buffer, block);
      ghost var first := block[..];
      if origSize > 56 {
        SpillTail(Sha1Compressor(), d, rest, length, first);
        HashSpill(block);
      } else {
        PlainTail(Sha1Compressor(), d, rest, length, first);
      }
      HashLast(block, totalBits);
    }

    /** Lines 269-291 of final. */
    method Finish()
      requires Valid()
      modifies this, digest
      ensures Digest(digest) == Hash(old(Msg()))
    {
      ghost var rest := buffer;
      var totalBits := (transforms * 64 + |buffer|) * 8 % TWO_TO_THE_64;
      FinalHash(Digest(digest), whole, buffer, transforms, totalBits);
      var origSize := PadBuffer();
      LastBlocks(rest, origSize, totalBits);
    }

    /** Lines 294-298 of final. */
    method PrintDigest() returns (hex: string)
      requires digest.Length == 5
      ensures hex == HexDigest(Digest(digest))
    {
      hex := "";
      for i := 0 to 5
        invariant hex == HexWords(digest[..i])
      {
        hex := hex + HexWord(digest[i]);
        assert digest[..i + 1][..i] == digest[..i];
      }
      assert digest[..5] == [digest[0], digest[1], digest[2], digest[3], digest[4]];
    }

    /** Pads, hashes the last one or two blocks, prints the digest and starts over. */
    method Final() returns (hex: string)
      requires Valid()
      modifies this, digest
      ensures hex == HexDigest(Hash(old(Msg())))
      ensures Valid() && Msg() == []
    {
      Finish();
      hex := PrintDigest();
      Reset();
    }
  }

  function Flatten(pieces: seq<seq<Byte>>): seq<Byte> {
    if pieces == [] then [] else Flatten(pieces[..|pieces| - 1]) + pieces[|pieces| - 1]
  }

  /** However a message is cut into calls of update, the digest is that of the whole message. */
  method DigestOfPieces(sha: SHA1, pieces: seq<seq<Byte>>) returns (hex: string)
    requires sha.Valid() && sha.Msg() == []
    modifies sha, sha.digest
    ensures hex == HexDigest(Hash(Flatten(pieces)))
    ensures sha.Valid() && sha.Msg() == []
  {
    for i := 0 to |pieces|
      invariant sha.Valid() && sha.Msg() == Flatten(pieces[..i])
    {
      sha.Update(pieces[i]);
      assert pieces[..i + 1][..i] == pieces[..i];
    }
    assert pieces[..|pieces|] == pieces;
    hex := sha.Final();
  }

  lemma SpillTail(f: Compressor, d: Vars, rest: seq<Byte>, length: seq<Word>, first: seq<Word>)
    requires 56 <= |rest| < 64 && |length| == 2 && first == Words(rest + [0x80] + Zeros(63 - |rest|))
    ensures Fold(f, d, PadWith(rest, length)) == f(f(d, first), seq(14, _ => 0 as Word) + length)
  {
    TwoBlockTail(rest, length, first);
    FoldTwo(f, d, first, seq(14, _ => 0 as Word) + length);
  }

  lemma PlainTail(f: Compressor, d: Vars, rest: seq<Byte>, length: seq<Word>, first: seq<Word>)
    requires |rest| < 56 && |length| == 2 && first == Words(rest + [0x80] + Zeros(63 - |rest|))
    ensures |first| == 16 && Fold(f, d, PadWith(rest, length)) == f(d, first[..14] + length)
  {
    OneBlockTail(rest, length, first);
    FoldOne(f, d, first[..14] + length);
  }
}
