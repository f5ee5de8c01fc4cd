/** SHA-1 as FIPS 180-4 defines it, on messages of whole bytes. */
module Sha1Spec {

  type Word = bv32
  type Byte = bv8

  /** The five working variables, or the five words of a hash value. */
  datatype Vars = Vars(a: Word, b: Word, c: Word, d: Word, e: Word)

  function Rotl(x: Word, n: bv6): Word
    requires n <= 32
  {
    (x << n) | (x >> (32 - n))
  }

  /** The functions of section 4.1.1. */
  function F(t: nat, x: Word, y: Word, z: Word): Word {
    if t < 20 then (x & y) ^ (!x & z)
    else if t < 40 then x ^ y ^ z
    else if t < 60 then (x & y) ^ (x & z) ^ (y & z)
    else x ^ y ^ z
  }

  /** The constants of section 4.2.1. */
  function K(t: nat): Word {
    if t < 20 then 0x5a827999 else if t < 40 then 0x6ed9eba1 else if t < 60 then 0x8f1bbcdc else 0xca62c1d6
  }

  /** The message schedule of section 6.1.2, step 1, as an explicit sequence of words. */
  function W(m: seq<Word>, t: nat): Word
    requires |m| == 16
  {
    if t < 16 then m[t] else Mix(W(m, t - 3), W(m, t - 8), W(m, t - 14), W(m, t - 16))
  }

  function Mix(p: Word, q: Word, r: Word, s: Word): Word {
    Rotl(p ^ q ^ r ^ s, 1)
  }

  /** The sum T of section 6.1.2, step 3. */
  function T(a: Word, f: Word, e: Word, k: Word, w: Word): Word {
    Rotl(a, 5) + f + e + k + w
  }

  /** One turn of the loop of section 6.1.2, step 3. */
  function Round(v: Vars, t: nat, w: Word): Vars {
    Vars(T(v.a, F(t, v.b, v.c, v.d), v.e, K(t), w), v.a, Rotl(v.b, 30), v.c, v.d)
  }

  function Rounds(h: Vars, m: seq<Word>, n: nat): Vars
    requires |m| == 16
  {
    if n == 0 then h else Round(Rounds(h, m, n - 1), n - 1, W(m, n - 1))
  }

  /** A run of the 80 rounds on block m from hash value h: sched is the explicit schedule of 80 words,
      states[t] are the working variables before round t. */
  datatype Computation = Computation(h: Vars, m: seq<Word>, sched: seq<Word>, states: seq<Vars>)

  ghost predicate IsRun(c: Computation) {
    |c.m| == 16 && |c.sched| == 80 && |c.states| == 81 && c.states[0] == c.h &&
    forall t: nat :: t < 80 ==> Linked(c, t)
  }

  ghost predicate Linked(c: Computation, t: nat)
    requires |c.m| == 16 && t < |c.sched| && t + 1 < |c.states|
  {
    c.sched[t] == W(c.m, t) && c.states[t + 1] == Round(c.states[t], t, c.sched[t])
  }

  ghost function RunOf(h: Vars, m: seq<Word>): (c: Computation)
    requires |m| == 16
    ensures IsRun(c) && c.h == h && c.m == m && c.states[80] == Rounds(h, m, 80)
  {
    var c := Computation(h, m, seq(80, t requires 0 <= t < 80 => W(m, t)),
                         seq(81, t requires 0 <= t < 81 => Rounds(h, m, t)));
    assert forall t: nat :: t < 80 ==> Linked(c, t);
    c
  }

  type Run = c: Computation | IsRun(c) ghost witness RunOf(Vars(0, 0, 0, 0, 0), seq(16, _ => 0))

  /** The hash value after one block (section 6.1.2, step 4). */
  function Compress(h: Vars, m: seq<Word>): Vars
    requires |m| == 16
  {
    AddBack(h, Rounds(h, m, 80))
  }

  function AddBack(h: Vars, v: Vars): Vars {
    Vars(Add(h.a, v.a), Add(h.b, v.b), Add(h.c, v.c), Add(h.d, v.d), Add(h.e, v.e))
  }

  /** Addition modulo 2^32. */
  function Add(x: Word, y: Word): Word {
    x + y
  }

  // ---------- whole messages ----------

  /** The initial hash value of section 5.3.1. */
  const H0 := Vars(0x67452301, 0xefcdab89, 0x98badcfe, 0x10325476, 0xc3d2e1f0)

  /** Four bytes as one word, most significant byte first (section 3.1). */
  function BigEndian(b0: Byte, b1: Byte, b2: Byte, b3: Byte): Word {
    (b0 as Word) * 0x1000000 + (b1 as Word) * 0x10000 + (b2 as Word) * 0x100 + (b3 as Word)
  }

  function Words(bytes: seq<Byte>): seq<Word> {
    seq(|bytes| / 4, i requires 0 <= i < |bytes| / 4 =>
      BigEndian(bytes[4 * i], bytes[4 * i + 1], bytes[4 * i + 2], bytes[4 * i + 3]))
  }

  function Zeros(n: nat): seq<Byte> {
    seq(n, _ => 0)
  }

  /** The number of zero bytes after the byte 0x80: the only k below 64 that leaves room for
      exactly the length in the last block (section 5.1.1). */
  function ZeroCount(length: nat): (k: nat)
    ensures k < 64 && (length + 1 + k) % 64 == 56
  {
    (119 - length % 64) % 64
  }

  lemma ZeroCountUnique(length: nat, k: nat)
    requires k < 64 && (length + 1 + k) % 64 == 56
    ensures k == ZeroCount(length)
  {
  }

  const TWO_TO_THE_32 := 0x1_0000_0000
  const TWO_TO_THE_64 := 0x1_0000_0000_0000_0000

  /** The two-word representation of a bit length (RFC 3174, section 4). */
  function LengthWords(bits: nat): seq<Word>
    requires bits < TWO_TO_THE_64
  {
    [(bits / TWO_TO_THE_32) as Word, (bits % TWO_TO_THE_32) as Word]
  }

  /** The byte 0x80 and the zero bytes. */
  function Trailer(length: nat): seq<Byte> {
    [0x80] + Zeros(ZeroCount(length))
  }

  /** The padded message of section 5.1.1, as words. The standard defines it below 2^64 bits;
      beyond that the length is taken modulo 2^64. */
  function Padded(msg: seq<Byte>): seq<Word> {
    PadWith(msg, LengthWords(8 * |msg| % TWO_TO_THE_64))
  }

  function PadWith(msg: seq<Byte>, length: seq<Word>): seq<Word> {
    Words(msg + Trailer(|msg|)) + length
  }

  /** A compression function: hash value and block to hash value. */
  type Compressor = (Vars, seq<Word>) -> Vars

  /** Blocks are hashed one after the other (section 6.1.2). */
  function Fold(f: Compressor, h: Vars, words: seq<Word>): Vars
    decreases |words|
  {
    if |words| < 16 then h else Fold(f, f(h, words[..16]), words[16..])
  }

  function Sha1Compressor(): Compressor {
    (h: Vars, m: seq<Word>) => if |m| == 16 then Compress(h, m) else h
  }

  /** The hash of a message (section 6.1.2). */
  function Hash(msg: seq<Byte>): Vars {
    Fold(Sha1Compressor(), H0, Padded(msg))
  }

  lemma {:induction false} FoldConcat(f: Compressor, h: Vars, a: seq<Word>, b: seq<Word>)
    requires |a| % 16 == 0
    ensures Fold(f, h, a + b) == Fold(f, Fold(f, h, a), b)
    decreases |a|
  {
    if a == [] {
      assert a + b == b;
    } else {
      assert (a + b)[..16] == a[..16] && (a + b)[16..] == a[16..] + b;
      FoldConcat(f, f(h, a[..16]), a[16..], b);
    }
  }

  lemma FoldOne(f: Compressor, h: Vars, m: seq<Word>)
    requires |m| == 16
    ensures Fold(f, h, m) == f(h, m)
  {
    assert m[..16] == m;
  }

  lemma WordsConcat(a: seq<Byte>, b: seq<Byte>)
    requires |a| % 4 == 0
    ensures Words(a + b) == Words(a) + Words(b)
  {
    var ab := a + b;
    assert |ab| / 4 == |a| / 4 + |b| / 4;
    forall i | 0 <= i < |ab| / 4 ensures Words(ab)[i] == (Words(a) + Words(b))[i] {
      if i < |a| / 4 {
        assert ab[4 * i] == a[4 * i] && ab[4 * i + 1] == a[4 * i + 1] && ab[4 * i + 2] == a[4 * i + 2] &&
          ab[4 * i + 3] == a[4 * i + 3];
      } else {
        var k := i - |a| / 4;
        assert ab[4 * i] == b[4 * k] && ab[4 * i + 1] == b[4 * k + 1] && ab[4 * i + 2] == b[4 * k + 2] &&
          ab[4 * i + 3] == b[4 * k + 3];
      }
    }
  }

  lemma ZeroWords(n: nat)
    ensures Words(Zeros(4 * n)) == seq(n, _ => 0 as Word)
  {
    assert 4 * n / 4 == n;
  }
}
