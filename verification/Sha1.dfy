/** SHA-1 as RFC 3174 defines it on a whole message (sections 4, 5 and 6.1). */
module Sha1Spec {
  import Int64

  type Byte = b: int | 0 <= b < 256

  const TWO_64: nat := 0x1_0000_0000_0000_0000

  /** The five words that are carried from block to block. */
  datatype Words = Words(a: bv32, b: bv32, c: bv32, d: bv32, e: bv32)

  const INITIAL := Words(0x67452301, 0xEFCDAB89, 0x98BADCFE, 0x10325476, 0xC3D2E1F0)

  function Rotl(x: bv32, n: nat): bv32
    requires 0 < n < 32
  {
    (x << n) | (x >> (32 - n))
  }

  /** Four bytes as a big-endian word. */
  function Word(b0: Byte, b1: Byte, b2: Byte, b3: Byte): bv32 {
    (b0 as bv32 << 24) | (b1 as bv32 << 16) | (b2 as bv32 << 8) | b3 as bv32
  }

  /** Word `t` of the schedule of one block, section 6.1 steps a and b. */
  function Schedule(block: seq<Byte>, t: nat): bv32
    requires |block| == 64 && t < 80
  {
    if t < 16 then Word(block[4 * t], block[4 * t + 1], block[4 * t + 2], block[4 * t + 3])
    else Rotl(Schedule(block, t - 3) ^ Schedule(block, t - 8) ^ Schedule(block, t - 14) ^ Schedule(block, t - 16), 1)
  }

  /** Addition modulo 2^32. */
  function Plus(x: bv32, y: bv32): bv32 { x + y }

  function Sum(x: bv32, f: bv32, e: bv32, w: bv32, k: bv32): bv32 { x + f + e + w + k }

  function Choose(b: bv32, c: bv32, d: bv32): bv32 { (b & c) | (!b & d) }

  function Parity(b: bv32, c: bv32, d: bv32): bv32 { b ^ c ^ d }

  function Majority(b: bv32, c: bv32, d: bv32): bv32 { (b & c) | (b & d) | (c & d) }

  /** The logical functions and constants of section 5. */
  function F(t: nat, b: bv32, c: bv32, d: bv32): bv32 {
    if t < 20 then Choose(b, c, d)
    else if t < 40 then Parity(b, c, d)
    else if t < 60 then Majority(b, c, d)
    else Parity(b, c, d)
  }

  function K(t: nat): bv32 {
    if t < 20 then 0x5A827999 else if t < 40 then 0x6ED9EBA1 else if t < 60 then 0x8F1BBCDC else 0xCA62C1D6
  }

  /** Step d: one of the eighty rounds. */
  function Round(s: Words, t: nat, w: bv32): Words {
    var temp := Sum(Rotl(s.a, 5), F(t, s.b, s.c, s.d), s.e, w, K(t));
    Words(temp, s.a, Rotl(s.b, 30), s.c, s.d)
  }

  function Rounds(s: Words, block: seq<Byte>, t: nat): Words
    requires |block| == 64 && t <= 80
  {
    if t == 0 then s else Round(Rounds(s, block, t - 1), t - 1, Schedule(block, t - 1))
  }

  /** Steps c and e: the rounds, added onto the words they started from. */
  function Compress(s: Words, block: seq<Byte>): Words
    requires |block| == 64
  {
    var r := Rounds(s, block, 80);
    Words(Plus(s.a, r.a), Plus(s.b, r.b), Plus(s.c, r.c), Plus(s.d, r.d), Plus(s.e, r.e))
  }

  /** The words after the first `n` blocks. */
  function Chain(m: seq<Byte>, n: nat): Words
    requires 64 * n <= |m|
  {
    if n == 0 then INITIAL else Compress(Chain(m, n - 1), m[64 * (n - 1)..64 * n])
  }

  lemma {:induction false} ChainOfPrefix(m: seq<Byte>, more: seq<Byte>, n: nat)
    requires 64 * n <= |m|
    ensures Chain(m + more, n) == Chain(m, n)
  {
    hide Compress;
    if n > 0 {
      ChainOfPrefix(m, more, n - 1);
      assert (m + more)[64 * (n - 1)..64 * n] == m[64 * (n - 1)..64 * n];
    }
  }

  function Pow256(k: nat): (p: nat)
    ensures p > 0
  {
    if k == 0 then 1 else 256 * Pow256(k - 1)
  }

  /** A number's low `k` bytes, most significant first. */
  function BigEndian(n: nat, k: nat): (r: seq<Byte>)
    ensures |r| == k
    decreases k
  {
    if k == 0 then [] else BigEndian(n / 256, k - 1) + [n % 256]
  }

  function Zeros(k: nat): (z: seq<Byte>)
    ensures |z| == k && forall i :: 0 <= i < k ==> z[i] == 0
  {
    seq(k, _ => 0)
  }

  /** The fewest zero bytes that leave room for exactly the eight length bytes in the last block. */
  function PaddingZeros(length: nat): (k: nat)
    ensures k < 64 && (length + 1 + k) % 64 == 56
  {
    (119 - length % 64) % 64
  }

  /** Section 4: a one bit, zeros, and the message length in bits as a 64-bit number. */
  function Padded(m: seq<Byte>): seq<Byte> {
    m + [0x80] + Zeros(PaddingZeros(|m|)) + BigEndian(8 * |m|, 8)
  }

  lemma PaddedIsWholeBlocks(m: seq<Byte>)
    ensures |Padded(m)| % 64 == 0
  {
    hide PaddingZeros, BigEndian, Zeros;
    var k := PaddingZeros(|m|);
    assert |Padded(m)| == |m| + 1 + k + 8;
    assert (|m| + 1 + k) % 64 == 56;
  }

  /** A word as four big-endian bytes: `w >> 24`, `w >> 16`, `w >> 8` and `w`, cut to eight bits. */
  function WordBytes(w: bv32): (r: seq<Byte>)
    ensures |r| == 4
  {
    var n := w as nat;
    [n / 0x100_0000 % 256, n / 0x1_0000 % 256, n / 0x100 % 256, n % 256]
  }

  /** Section 6.1: the message digest. */
  function Digest(m: seq<Byte>): (r: seq<Byte>)
    ensures |r| == 20
  {
    var s := Chain(Padded(m), |Padded(m)| / 64);
    WordBytes(s.a) + WordBytes(s.b) + WordBytes(s.c) + WordBytes(s.d) + WordBytes(s.e)
  }

  /** Byte `i` is the number shifted right by the bytes after it. */
  lemma {:induction false} BigEndianAt(n: nat, k: nat, i: nat)
    requires i < k
    ensures BigEndian(n, k)[i] == n / Pow256(k - 1 - i) % 256
    decreases k
  {
    if i < k - 1 {
      BigEndianAt(n / 256, k - 1, i);
      DivideTwice(n, Pow256(k - 2 - i));
    }
  }

  lemma DivideTwice(n: nat, p: nat)
    requires p > 0
    ensures n / 256 / p == n / (256 * p)
  {
    var q := n / 256 / p;
    var r := n / 256 % p;
    assert n / 256 == q * p + r;
    assert n == q * (256 * p) + (256 * r + n % 256) by {
      assert 256 * (q * p) == q * (256 * p);
    }
    UniqueQuotient(n, 256 * p, q, 256 * r + n % 256);
  }

  lemma UniqueQuotient(n: int, d: nat, q: int, r: nat)
    requires d > 0 && n == q * d + r && r < d
    ensures n / d == q
  {
    var e := n / d;
    assert n == e * d + n % d;
    if e > q {
      Int64.MulMonotone(q + 1, e, d);
    } else if e < q {
      Int64.MulMonotone(e + 1, q, d);
    }
  }

  /** The low `k` bytes do not see multiples of `256^k`. */
  lemma {:induction false} BigEndianCongruent(n: nat, c: nat, k: nat)
    ensures BigEndian(n + c * Pow256(k), k) == BigEndian(n, k)
    decreases k
  {
    hide BigEndian, Pow256;
    BigEndianStep(n, k);
    BigEndianStep(n + c * Pow256(k), k);
    if k > 0 {
      var z := c * Pow256(k - 1);
      ShiftedProduct(c, k);
      ShiftedByte(n, z);
      BigEndianCongruent(n / 256, c, k - 1);
    }
  }

  lemma BigEndianStep(n: nat, k: nat)
    ensures BigEndian(n, k) == if k == 0 then [] else BigEndian(n / 256, k - 1) + [n % 256]
  {}

  lemma ShiftedProduct(c: nat, k: nat)
    requires k > 0
    ensures c * Pow256(k) == 256 * (c * Pow256(k - 1))
  {
    var p := Pow256(k - 1);
    assert Pow256(k) == 256 * p;
    hide Pow256;
    assert c * (256 * p) == 256 * (c * p);
  }

  lemma ShiftedByte(n: nat, z: nat)
    ensures (n + 256 * z) / 256 == n / 256 + z && (n + 256 * z) % 256 == n % 256
  {}

  /** The number that big-endian bytes spell. */
  function Value(bytes: seq<Byte>): nat {
    if bytes == [] then 0 else 256 * Value(bytes[..|bytes| - 1]) + bytes[|bytes| - 1]
  }

  lemma {:induction false} BigEndianSpells(n: nat, k: nat)
    requires n < Pow256(k)
    ensures Value(BigEndian(n, k)) == n
    decreases k
  {
    if k > 0 {
      BigEndianSpells(n / 256, k - 1);
      assert BigEndian(n, k)[..k - 1] == BigEndian(n / 256, k - 1);
    }
  }

  /** Padding loses nothing: within the length limit of section 4, two messages
      that are padded alike are the same message. */
  lemma PaddingIsInjective(m: seq<Byte>, n: seq<Byte>)
    requires 8 * |m| < TWO_64 && 8 * |n| < TWO_64
    requires Padded(m) == Padded(n)
    ensures m == n
  {
    hide BigEndian, Value;
    var p := Padded(m);
    assert p[|p| - 8..] == BigEndian(8 * |m|, 8);
    assert p[|p| - 8..] == BigEndian(8 * |n|, 8);
    EightBytes();
    BigEndianSpells(8 * |m|, 8);
    BigEndianSpells(8 * |n|, 8);
    assert m == p[..|m|];
    assert n == p[..|n|];
  }

  lemma EightBytes()
    ensures Pow256(8) == TWO_64
  {
    assert Pow256(4) == 0x1_0000_0000;
  }

  /** Behind the message stand a one bit and seven zero bits, zero bytes, and the length in bits; and
      there is no shorter way to fill whole blocks with them. */
  lemma PaddingLayout(m: seq<Byte>)
    requires 8 * |m| < TWO_64
    ensures var p := Padded(m);
            && |p| % 64 == 0 && |m| + 9 <= |p| < |m| + 9 + 64
            && p[..|m|] == m && p[|m|] == 128
            && (forall i :: |m| < i < |p| - 8 ==> p[i] == 0)
            && Value(p[|p| - 8..]) == 8 * |m|
  {
    PaddedIsWholeBlocks(m);
    hide BigEndian, Value, PaddingZeros;
    var p := Padded(m);
    assert p[|p| - 8..] == BigEndian(8 * |m|, 8);
    EightBytes();
    BigEndianSpells(8 * |m|, 8);
  }

  // ---------------------------------------------------------------- words and bytes

  lemma NextBits(v: bv8)
    requires v < 0xFF
    ensures (v + 1) as nat == v as nat + 1
  {}

  lemma BitsAsNumber(v: bv8)
    ensures (v as nat) as bv8 == v
  {}

  lemma {:induction false} ByteAsBits(b: Byte)
    ensures (b as bv8) as nat == b
  {
    if b > 0 {
      ByteAsBits(b - 1);
      var v := (b - 1) as bv8;
      NotTheLast(v);
      NextBits(v);
      BitsAsNumber(v + 1);
    }
  }

  lemma NotTheLast(v: bv8)
    requires v as nat < 255
    ensures v < 0xFF
  {}

  lemma WidenedByte(b: bv8)
    ensures (b as bv32) as nat == b as nat
  {}

  lemma WordAsNumber(w: bv32)
    ensures (w as nat) as bv32 == w
  {}

  lemma SameWidened(b: Byte)
    ensures b as bv32 == (b as bv8) as bv32 && (b as bv8) as nat == b
  {
    ByteAsBits(b);
    WidenedByte(b as bv8);
    WordAsNumber((b as bv8) as bv32);
  }

  lemma FourBytes(x: bv8, y: bv8, z: bv8, w: bv8)
    ensures ((x as bv32 << 24) | (y as bv32 << 16) | (z as bv32 << 8) | w as bv32) as nat
            == 0x100_0000 * (x as nat) + 0x1_0000 * (y as nat) + 0x100 * (z as nat) + w as nat
  {}

  /** A word is the number that its four bytes spell, the first byte counting most. */
  lemma WordSpells(b0: Byte, b1: Byte, b2: Byte, b3: Byte)
    ensures Word(b0, b1, b2, b3) as nat == Value([b0, b1, b2, b3])
    ensures WordBytes(Word(b0, b1, b2, b3)) == [b0, b1, b2, b3]
  {
    hide Word, Value, WordBytes, Number;
    WordNumber(b0, b1, b2, b3);
    FourValue(b0, b1, b2, b3);
    LeadingBytes(b0, b1, b2, b3);
    BytesOfNumber(Word(b0, b1, b2, b3), Number(b0, b1, b2, b3));
  }

  function Number(b0: Byte, b1: Byte, b2: Byte, b3: Byte): nat { 0x100_0000 * b0 + 0x1_0000 * b1 + 0x100 * b2 + b3 }

  lemma BytesOfNumber(w: bv32, n: nat)
    requires w as nat == n
    ensures WordBytes(w) == BytesOf(n)
  {}

  function BytesOf(n: nat): seq<Byte> { [n / 0x100_0000 % 256, n / 0x1_0000 % 256, n / 0x100 % 256, n % 256] }

  lemma WordNumber(b0: Byte, b1: Byte, b2: Byte, b3: Byte)
    ensures Word(b0, b1, b2, b3) as nat == Number(b0, b1, b2, b3)
  {
    SameWidened(b0);
    SameWidened(b1);
    SameWidened(b2);
    SameWidened(b3);
    FourBytes(b0 as bv8, b1 as bv8, b2 as bv8, b3 as bv8);
  }

  lemma FourValue(b0: Byte, b1: Byte, b2: Byte, b3: Byte)
    ensures Value([b0, b1, b2, b3]) == Number(b0, b1, b2, b3)
  {
    ValueSnoc([], b0);
    ValueSnoc([b0], b1);
    ValueSnoc([b0, b1], b2);
    ValueSnoc([b0, b1, b2], b3);
    assert [] + [b0] == [b0] && [b0] + [b1] == [b0, b1];
    assert [b0, b1] + [b2] == [b0, b1, b2] && [b0, b1, b2] + [b3] == [b0, b1, b2, b3];
  }

  lemma ValueSnoc(bytes: seq<Byte>, b: Byte)
    ensures Value(bytes + [b]) == 256 * Value(bytes) + b
  {
    assert (bytes + [b])[..|bytes|] == bytes;
  }

  lemma LeadingBytes(b0: Byte, b1: Byte, b2: Byte, b3: Byte)
    ensures BytesOf(Number(b0, b1, b2, b3)) == [b0, b1, b2, b3]
  {
    var p, q := 0x100 * b0 + b1, 0x1_0000 * b0 + 0x100 * b1 + b2;
    Quotient(Number(b0, b1, b2, b3), 0x100, q, b3);
    Quotient(Number(b0, b1, b2, b3), 0x1_0000, p, 0x100 * b2 + b3);
    Quotient(Number(b0, b1, b2, b3), 0x100_0000, b0, 0x1_0000 * b1 + 0x100 * b2 + b3);
    Quotient(q, 0x100, p, b2);
    Quotient(p, 0x100, b0, b1);
  }

  lemma Quotient(n: nat, d: nat, q: nat, r: nat)
    requires d > 0 && n == q * d + r && r < d
    ensures n / d == q && n % d == r
  {
    UniqueQuotient(n, d, q, r);
  }

  /** A word is determined by its bytes, and it is the word of its bytes. */
  lemma WordOfBytes(w: bv32)
    ensures var b := WordBytes(w); Word(b[0], b[1], b[2], b[3]) == w
  {
    hide Word, WordBytes, BytesOf, Number;
    var b := WordBytes(w);
    BytesOfNumber(w, w as nat);
    WordNumber(b[0], b[1], b[2], b[3]);
    Recomposed(w as nat);
    SameNumber(Word(b[0], b[1], b[2], b[3]), w);
  }

  lemma Recomposed(n: nat)
    requires n < 0x1_0000_0000
    ensures var b := BytesOf(n); |b| == 4 && Number(b[0], b[1], b[2], b[3]) == n
  {
    var p, q, r := n / 0x100, n / 0x1_0000, n / 0x100_0000;
    assert n == 0x100 * p + n % 256 && p == 0x100 * q + p % 256 && q == 0x100 * r + q % 256;
    assert r % 256 == r;
  }

  lemma SameNumber(v: bv32, w: bv32)
    requires v as nat == w as nat
    ensures v == w
  {
    WordAsNumber(v);
    WordAsNumber(w);
  }

  // ------------------------------------------------- what the parts of a round mean

  /** The rotations are those of a ring of 32 bits, by the three amounts that occur. */
  lemma RotationOfBits(x: bv32)
    ensures Rotl(x, 1) == x.RotateLeft(1) && Rotl(x, 5) == x.RotateLeft(5) && Rotl(x, 30) == x.RotateLeft(30)
  {}

  /** Bit by bit: where `b` is set it selects `c`, elsewhere `d`. */
  lemma ChooseSelects(b: bv32, c: bv32, d: bv32)
    ensures Choose(b, c, d) & b == c & b && Choose(b, c, d) & !b == d & !b
  {}

  /** Bit by bit: where `b` and `c` agree they decide, elsewhere `d` does. */
  lemma MajorityVotes(b: bv32, c: bv32, d: bv32)
    ensures Majority(b, c, d) & !(b ^ c) == b & !(b ^ c)
    ensures Majority(b, c, d) & (b ^ c) == d & (b ^ c)
  {}

  /** Bit by bit: where `b` and `c` agree it is `d`, elsewhere the opposite of `d`. */
  lemma ParityCounts(b: bv32, c: bv32, d: bv32)
    ensures Parity(b, c, d) & !(b ^ c) == d & !(b ^ c)
    ensures Parity(b, c, d) & (b ^ c) == !d & (b ^ c)
  {}

  /** `k` is the integer part of 2^30 times the square root of `n`. */
  predicate IsRoot(k: nat, n: nat) { k * k <= n * 0x1000_0000_0000_0000 < (k + 1) * (k + 1) }

  /** The round constants come from the square roots of 2, 3, 5 and 10. */
  lemma ConstantsAreRoots(t: nat)
    requires t < 80
    ensures IsRoot(K(t) as nat, if t < 20 then 2 else if t < 40 then 3 else if t < 60 then 5 else 10)
  {}

  /** Byte `i` of a word, the lowest first. */
  function LowByte(w: bv32, i: nat): nat
    requires i < 4
  {
    WordBytes(w)[3 - i]
  }

  /** From the lowest byte on, the first four words count up in hexadecimal from 01 to EF and down
      again from FE to 10; the last one goes on with F0, E1, D2, C3. */
  lemma InitialWordsCount(i: nat)
    requires i < 4
    ensures LowByte(INITIAL.a, i) == 34 * i + 1 && LowByte(INITIAL.b, i) == 34 * (i + 4) + 1
    ensures LowByte(INITIAL.c, i) == 254 - 34 * i && LowByte(INITIAL.d, i) == 254 - 34 * (i + 4)
    ensures LowByte(INITIAL.e, i) == 240 - 15 * i
  {
    InitialBytes();
  }

  lemma InitialBytes()
    ensures WordBytes(INITIAL.a) == [0x67, 0x45, 0x23, 0x01] && WordBytes(INITIAL.b) == [0xEF, 0xCD, 0xAB, 0x89]
    ensures WordBytes(INITIAL.c) == [0x98, 0xBA, 0xDC, 0xFE] && WordBytes(INITIAL.d) == [0x10, 0x32, 0x54, 0x76]
    ensures WordBytes(INITIAL.e) == [0xC3, 0xD2, 0xE1, 0xF0]
  {}
}

/** The streaming hasher, which must compute the same digest however the message is cut into pieces. */
module Sha1Streaming {
  import opened Sha1Spec

  class Sha1 {
    const h: array<bv32>
    const buffer: array<Byte>
    var bufferLen: nat
    var totalLen: nat
    /** Everything given to `Update` so far. */
    ghost var message: seq<Byte>

    static predicate Holds(h: seq<bv32>, s: Words) {
      |h| == 5 && h[0] == s.a && h[1] == s.b && h[2] == s.c && h[3] == s.d && h[4] == s.e
    }

    ghost predicate Valid()
      reads this, h, buffer
    {
      && h.Length == 5 && buffer.Length == 64
      && totalLen == |message| % TWO_64
      && Absorbed(h[..], buffer[..], bufferLen, message)
    }

    /** Whole blocks are in the words, the rest is in the buffer. */
    static ghost predicate Absorbed(h: seq<bv32>, buffer: seq<Byte>, bufferLen: nat, m: seq<Byte>) {
      exists n: nat :: 64 * n + bufferLen == |m| && BlocksAbsorbed(h, buffer, bufferLen, m, n)
    }

    static ghost predicate BlocksAbsorbed(h: seq<bv32>, buffer: seq<Byte>, bufferLen: nat, m: seq<Byte>, n: nat)
      requires 64 * n + bufferLen == |m|
    {
      && bufferLen < 64 == |buffer|
      && Holds(h, Chain(m, n))
      && buffer[..bufferLen] == m[64 * n..]
    }

    constructor ()
      ensures Valid() && message == [] && fresh(h) && fresh(buffer)
    {
      h := new bv32[5] [0x67452301, 0xEFCDAB89, 0x98BADCFE, 0x10325476, 0xC3D2E1F0];
      buffer := new Byte[64](_ => 0);
      bufferLen, totalLen := 0, 0;
      message := [];
      new;
      assert BlocksAbsorbed(h[..], buffer[..], bufferLen, message, 0);
    }

    /** One block, as section 6.1 prescribes it. */
    method ProcessBlock(ghost s: Words)
      requires h.Length == 5 && buffer.Length == 64 && Holds(h[..], s)
      modifies h
      ensures Holds(h[..], Compress(s, buffer[..]))
    {
      hide Rounds, Schedule, Plus;
      var w := ExpandSchedule();
      var a, b, c, d, e := RunRounds(w, s);
      h[0] := Plus(h[0], a);
      h[1] := Plus(h[1], b);
      h[2] := Plus(h[2], c);
      h[3] := Plus(h[3], d);
      h[4] := Plus(h[4], e);
    }

    /** The eighty schedule words of the buffered block. */
    method ExpandSchedule() returns (w: array<bv32>)
      requires buffer.Length == 64
      ensures fresh(w) && w.Length == 80
      ensures forall j :: 0 <= j < 80 ==> w[j] == Schedule(buffer[..], j)
    {
      hide Word, Rotl, Schedule;
      ghost var block := buffer[..];
      w := new bv32[80];
      for i := 0 to 16
        invariant forall j :: 0 <= j < i ==> w[j] == Schedule(block, j)
      {
        w[i] := Word(buffer[i * 4], buffer[i * 4 + 1], buffer[i * 4 + 2], buffer[i * 4 + 3]);
        ScheduleStep(block, i);
      }
      for i := 16 to 80
        invariant forall j :: 0 <= j < i ==> w[j] == Schedule(block, j)
      {
        w[i] := Rotl(w[i - 3] ^ w[i - 8] ^ w[i - 14] ^ w[i - 16], 1);
        ScheduleStep(block, i);
      }
    }

    /** The eighty rounds over the five chained words. */
    method RunRounds(w: array<bv32>, ghost s: Words) returns (a: bv32, b: bv32, c: bv32, d: bv32, e: bv32)
      requires h.Length == 5 && buffer.Length == 64 && w.Length == 80 && Holds(h[..], s)
      requires forall j :: 0 <= j < 80 ==> w[j] == Schedule(buffer[..], j)
      ensures Words(a, b, c, d, e) == Rounds(s, buffer[..], 80)
    {
      hide Rotl, Schedule, Rounds, Sum, Choose, Parity, Majority;
      ghost var block := buffer[..];
      a, b, c, d, e := h[0], h[1], h[2], h[3], h[4];
      RoundsStep(s, block, 0);
      for i := 0 to 80
        invariant Words(a, b, c, d, e) == Rounds(s, block, i)
      {
        var f: bv32, k: bv32;
        if i < 20 {
          f := Choose(b, c, d);
          k := 0x5A827999;
        } else if i < 40 {
          f := Parity(b, c, d);
          k := 0x6ED9EBA1;
        } else if i < 60 {
          f := Majority(b, c, d);
          k := 0x8F1BBCDC;
        } else {
          f := Parity(b, c, d);
          k := 0xCA62C1D6;
        }
        var temp := RoundSum(Rotl(a, 5), f, e, k, w[i]);
        e := d;
        d := c;
        c := Rotl(b, 30);
        b := a;
        a := temp;
        RoundsStep(s, block, i + 1);
      }
    }

    /** The addition of one round, in the order of the source. */
    static method RoundSum(x: bv32, f: bv32, e: bv32, k: bv32, w: bv32) returns (temp: bv32)
      ensures temp == Sum(x, f, e, w, k)
    {
      temp := x + f + e + k + w;
      SumInAnyOrder(x, f, e, k, w);
    }

    /** The order in which the source adds the constant and the schedule word makes no difference. */
    static lemma SumInAnyOrder(x: bv32, f: bv32, e: bv32, k: bv32, w: bv32)
      ensures x + f + e + k + w == Sum(x, f, e, w, k)
    {}

    static lemma ScheduleStep(block: seq<Byte>, t: nat)
      requires |block| == 64 && t < 80
      ensures Schedule(block, t) ==
              if t < 16 then Word(block[4 * t], block[4 * t + 1], block[4 * t + 2], block[4 * t + 3])
              else Rotl(Schedule(block, t - 3) ^ Schedule(block, t - 8) ^ Schedule(block, t - 14)
                        ^ Schedule(block, t - 16), 1)
    {
      hide Word, Rotl;
    }

    static lemma RoundsStep(s: Words, block: seq<Byte>, t: nat)
      requires |block| == 64 && t <= 80
      ensures Rounds(s, block, t) ==
              if t == 0 then s else Round(Rounds(s, block, t - 1), t - 1, Schedule(block, t - 1))
    {
      hide Round, Schedule;
    }

    /** The pieces of a message may be cut anywhere: the state depends only on their concatenation. */
    method Update(data: seq<Byte>)
      requires Valid()
      modifies this, h, buffer
      ensures Valid() && message == old(message) + data
    {
      for i := 0 to |data|
        invariant Valid() && message == old(message) + data[..i]
      {
        Push(data[i]);
        assert data[..i + 1] == data[..i] + [data[i]];
      }
      assert data[..|data|] == data;
    }

    /** The body of the loop of `Update`. */
    method Push(byte: Byte)
      requires Valid()
      modifies this, h, buffer
      ensures Valid() && message == old(message) + [byte]
      ensures bufferLen == (old(bufferLen) + 1) % 64
    {
      hide Compress, Holds, BlocksAbsorbed, Chain, Absorbed;
      ghost var n := WholeBlockCount(h[..], buffer[..], bufferLen, message);
      ghost var m := message + [byte];
      AppendByte(h[..], buffer[..], bufferLen, message, n, byte);
      buffer[bufferLen] := byte;
      bufferLen := bufferLen + 1;
      totalLen := (totalLen + 1) % TWO_64;
      message := m;
      if bufferLen == buffer.Length {
        ProcessBlock(Chain(m, n));
        bufferLen := 0;
        AppendBlock(h[..], buffer[..], m, n);
      }
    }

    static lemma WholeBlockCount(h: seq<bv32>, buffer: seq<Byte>, bufferLen: nat, m: seq<Byte>) returns (n: nat)
      requires Absorbed(h, buffer, bufferLen, m)
      ensures 64 * n + bufferLen == |m| && BlocksAbsorbed(h, buffer, bufferLen, m, n)
    {
      hide BlocksAbsorbed;
      n :| 64 * n + bufferLen == |m| && BlocksAbsorbed(h, buffer, bufferLen, m, n);
    }

    static lemma AppendByte(h: seq<bv32>, buffer: seq<Byte>, bufferLen: nat, m: seq<Byte>, n: nat, byte: Byte)
      requires 64 * n + bufferLen == |m| && BlocksAbsorbed(h, buffer, bufferLen, m, n)
      ensures bufferLen < 64 == |buffer|
      ensures bufferLen < 63 ==> Absorbed(h, buffer[bufferLen := byte], bufferLen + 1, m + [byte])
      ensures bufferLen == 63 ==> Holds(h, Chain(m + [byte], n))
                                  && buffer[bufferLen := byte] == (m + [byte])[64 * n..64 * n + 64]
    {
      hide Compress, Holds, Chain;
      ChainOfPrefix(m, [byte], n);
      var filled := buffer[bufferLen := byte];
      assert filled[..bufferLen + 1] == buffer[..bufferLen] + [byte] == (m + [byte])[64 * n..];
      if bufferLen == 63 {
        assert filled == filled[..64];
      } else {
        assert BlocksAbsorbed(h, filled, bufferLen + 1, m + [byte], n);
      }
    }

    static lemma AppendBlock(h: seq<bv32>, buffer: seq<Byte>, m: seq<Byte>, n: nat)
      requires |buffer| == 64 && |m| == 64 * (n + 1)
      requires Holds(h, Compress(Chain(m, n), m[64 * n..64 * n + 64]))
      ensures Absorbed(h, buffer, 0, m)
    {
      hide Compress, Holds;
      assert BlocksAbsorbed(h, buffer, 0, m, n + 1);
    }

    method LengthBytes(bitLen: nat) returns (r: seq<Byte>)
      ensures r == BigEndian(bitLen, 8)
    {
      hide BigEndian, Pow256;
      r := [];
      for i := 0 to 8
        invariant |r| == i && r == BigEndian(bitLen, 8)[..i]
      {
        r := r + [bitLen / Pow256(7 - i) % 256];
        BigEndianAt(bitLen, 8, i);
      }
    }

    lemma BufferedLength()
      requires Valid()
      ensures bufferLen == |message| % 64
    {
      hide Absorbed;
      BufferRest(h[..], buffer[..], bufferLen, message);
    }

    static lemma BufferRest(h: seq<bv32>, buffer: seq<Byte>, bufferLen: nat, m: seq<Byte>)
      requires Absorbed(h, buffer, bufferLen, m)
      ensures bufferLen == |m| % 64
    {
      var n := WholeBlockCount(h, buffer, bufferLen, m);
      hide Holds, Chain, Absorbed;
      assert bufferLen < 64;
      hide BlocksAbsorbed;
      RestOfBlocks(n, bufferLen);
    }

    static lemma RestOfBlocks(n: nat, rest: nat)
      requires rest < 64
      ensures (64 * n + rest) % 64 == rest
    {}

    /** The padding loop, which stops after exactly the zeros that section 4 asks for. */
    method PushZeros(ghost m: seq<Byte>)
      requires Valid() && message == m + [0x80]
      modifies this, h, buffer
      ensures Valid() && message == m + [0x80] + Zeros(PaddingZeros(|m|))
    {
      hide Absorbed, Zeros, PaddingZeros;
      ghost var zeros := 0;
      BufferedLength();
      ZerosStep(m, 0);
      while bufferLen != 56
        invariant Valid() && message == m + [0x80] + Zeros(zeros)
        invariant zeros <= PaddingZeros(|m|) && bufferLen == (|m| + 1 + zeros) % 64
        decreases PaddingZeros(|m|) - zeros
      {
        FewestZeros(|m|, zeros);
        Push(0x00);
        ZerosStep(m, zeros);
        zeros := zeros + 1;
        BufferedLength();
      }
      FewestZeros(|m|, zeros);
    }

    static lemma ZerosStep(m: seq<Byte>, k: nat)
      ensures m + [0x80] + Zeros(k) + [0] == m + [0x80] + Zeros(k + 1)
      ensures m + [0x80] + Zeros(0) == m + [0x80]
    {
      assert Zeros(k + 1) == Zeros(k) + [0];
    }

    static lemma FewestZeros(length: nat, zeros: nat)
      requires zeros <= PaddingZeros(length)
      ensures (length + 1 + zeros) % 64 == 56 <==> zeros == PaddingZeros(length)
    {
      hide PaddingZeros;
    }

    /** The digest of everything given to `Update`, as section 6.1 defines it. */
    method Finish() returns (digest: seq<Byte>)
      requires Valid()
      modifies this, h, buffer
      ensures digest == Digest(old(message))
    {
      hide Compress, BigEndian, Absorbed, PaddingZeros, WordBytes, Chain;
      ghost var m := message;
      var bitLen := totalLen * 8 % TWO_64;
      Update([0x80]);
      PushZeros(m);
      var lenBytes := LengthBytes(bitLen);
      LengthModulo(|m|);
      Update(lenBytes);
      assert message == Padded(m);
      PaddedIsWholeBlocks(m);
      WholeBlocks();
      digest := [];
      for word := 0 to 5
        invariant h.Length == 5
        invariant digest == Concat(h[..], word)
      {
        digest := digest + WordBytes(h[word]);
      }
      FiveWords(h[..], Chain(message, |message| / 64));
    }

    lemma WholeBlocks()
      requires Valid() && |message| % 64 == 0
      ensures Holds(h[..], Chain(message, |message| / 64))
    {
      hide Holds, Chain;
      var n: nat :| 64 * n + bufferLen == |message| && BlocksAbsorbed(h[..], buffer[..], bufferLen, message, n);
    }

    /** The 64-bit counter may wrap around; its low 64 bits are still those of the bit length. */
    static lemma LengthModulo(length: nat)
      ensures BigEndian(length % TWO_64 * 8 % TWO_64, 8) == BigEndian(8 * length, 8)
    {
      hide BigEndian, Pow256;
      EightBytes();
      var low := length % TWO_64 * 8 % TWO_64;
      TimesEight(length, length / TWO_64, length % TWO_64);
      BigEndianCongruent(low, 8 * length / TWO_64, 8);
    }

    static lemma TimesEight(length: nat, q: nat, r: nat)
      requires length == q * TWO_64 + r
      ensures r * 8 % TWO_64 == 8 * length % TWO_64
    {
      assert 8 * length == r * 8 + TWO_64 * (8 * q);
    }

    static function Concat(h: seq<bv32>, n: nat): seq<Byte>
      requires n <= |h|
    {
      if n == 0 then [] else Concat(h, n - 1) + WordBytes(h[n - 1])
    }

    static lemma FiveWords(h: seq<bv32>, s: Words)
      requires Holds(h, s)
      ensures Concat(h, 5) == WordBytes(s.a) + WordBytes(s.b) + WordBytes(s.c) + WordBytes(s.d) + WordBytes(s.e)
    {
      hide WordBytes;
      var a, b, c, d := WordBytes(s.a), WordBytes(s.b), WordBytes(s.c), WordBytes(s.d);
      assert Concat(h, 1) == [] + a == a;
      assert Concat(h, 3) == a + b + c;
    }
  }
}
