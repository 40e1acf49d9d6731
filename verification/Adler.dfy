/** The Adler-32 checksum: blocks of 5552 bytes between reductions, unrolled sixteen-fold. */
module Adler {
  import opened Bytes

  const BASE := 65521
  const NMAX := 5552

  type u32 = x: int | 0 <= x < 0x1_0000_0000

  /** The two sums, low half first. */
  datatype Sums = Sums(s1: nat, s2: nat)

  /** One byte, as sections 2.2 and 8.2 of RFC 1950 define the checksum. */
  function Update(s: Sums, b: byte): Sums {
    var s1 := (s.s1 + b) % BASE;
    Sums(s1, (s.s2 + s1) % BASE)
  }

  /** The checksum byte by byte. */
  function Checksum(s: Sums, buf: seq<byte>): Sums {
    if buf == [] then s else Update(Checksum(s, buf[..|buf| - 1]), buf[|buf| - 1])
  }

  /** Both sums wrap around at 65521. */
  lemma SumsWrapAround(s: Sums)
    ensures Update(Sums(65519, 0), 1) == Sums(65520, 65520)
    ensures Update(Sums(65520, 65520), 1) == Sums(0, 65520)
    ensures Update(s, 0).s1 < 65521 && Update(s, 0).s2 < 65521
  {
  }

  /** The checksum of a text of nine letters, from the usual start value. */
  lemma KnownChecksum()
    ensures Adler32Of(1, [87, 105, 107] + [105, 112, 101] + [100, 105, 97]) == 0x11E6_0398
  {
    hide Checksum;
    ThreeBytes(Sums(1, 0), 87, 105, 107);
    ThreeBytes(Sums(300, 581), 105, 112, 101);
    ThreeBytes(Sums(618, 2121), 100, 105, 97);
    ChecksumAppends(Sums(1, 0), [87, 105, 107], [105, 112, 101]);
    ChecksumAppends(Sums(1, 0), [87, 105, 107] + [105, 112, 101], [100, 105, 97]);
    assert Unpack(1) == Sums(1, 0);
  }

  lemma ThreeBytes(s: Sums, x: byte, y: byte, z: byte)
    requires s.s1 < 1000 && s.s2 < 10000
    ensures Checksum(s, [x, y, z]) == Sums(s.s1 + x + y + z, s.s2 + 3 * s.s1 + 3 * x + 2 * y + z)
  {
    hide Update;
    assert [x][..0] == [];
    assert Checksum(s, [x]) == Update(s, x);
    assert [x, y][..1] == [x];
    assert Checksum(s, [x, y]) == Update(Update(s, x), y);
    assert [x, y, z][..2] == [x, y];
    hide Checksum;
    SmallUpdate(s, x);
    SmallUpdate(Update(s, x), y);
    SmallUpdate(Update(Update(s, x), y), z);
  }

  lemma SmallUpdate(s: Sums, b: byte)
    requires s.s1 < 10000 && s.s2 < 20000
    ensures Update(s, b) == Sums(s.s1 + b, s.s2 + s.s1 + b)
  {
  }

  /** The sums without any reduction. */
  function Unreduced(s: Sums, buf: seq<byte>): Sums {
    if buf == [] then s
    else
      var u := Unreduced(s, buf[..|buf| - 1]);
      Sums(u.s1 + buf[|buf| - 1], u.s2 + u.s1 + buf[|buf| - 1])
  }

  /** The sum of the numbers up to n. */
  function Triangle(n: nat): nat { if n == 0 then 0 else Triangle(n - 1) + n }

  lemma {:induction false} TriangleIs(n: nat)
    ensures 2 * Triangle(n) == n * (n + 1)
  {
    if n > 0 { TriangleIs(n - 1); }
  }

  lemma {:induction false} LargestSums(a: nat, b: nat, n: nat)
    ensures Unreduced(Sums(a, b), seq(n, _ => 255)) == Sums(a + 255 * n, b + n * a + 255 * Triangle(n))
  {
    var buf := seq(n, _ => 255);
    if n > 0 {
      LargestSums(a, b, n - 1);
      assert buf[..n - 1] == seq(n - 1, _ => 255);
      assert n * a == (n - 1) * a + a;
    }
  }

  /** 5552 is the largest number of bytes whose sums fit in 32 bits when the start values are reduced. */
  lemma BlocksAreAsLargeAsPossible()
    ensures Unreduced(Sums(65520, 65520), seq(NMAX, _ => 255)).s2 < 0x1_0000_0000
    ensures Unreduced(Sums(65520, 65520), seq(NMAX + 1, _ => 255)).s2 >= 0x1_0000_0000
  {
    TriangleIs(NMAX);
    TriangleIs(NMAX + 1);
    LargestSums(65520, 65520, NMAX);
    LargestSums(65520, 65520, NMAX + 1);
  }

  function Reduce(s: Sums): Sums {
    Sums(s.s1 % BASE, s.s2 % BASE)
  }

  lemma ModAdd(a: nat, b: nat)
    ensures (a % BASE + b) % BASE == (a + b) % BASE
  {
    var q := a / BASE;
    assert a + b == q * BASE + (a % BASE + b);
    ModShift(q, a % BASE + b);
  }

  lemma {:induction false} ModShift(q: nat, r: nat)
    ensures (q * BASE + r) % BASE == r % BASE
    decreases q
  {
    if q > 0 { ModShift(q - 1, r); assert q * BASE + r == (q - 1) * BASE + r + BASE; }
  }

  /** Reducing late is reducing often. */
  lemma {:induction false} DeferredReduction(s: Sums, buf: seq<byte>)
    requires buf != []
    ensures Reduce(Unreduced(s, buf)) == Checksum(s, buf)
    decreases |buf|
  {
    var rest, b := buf[..|buf| - 1], buf[|buf| - 1];
    hide Update, Reduce;
    UpdateReduces(Unreduced(s, rest), b);
    if rest != [] { DeferredReduction(s, rest); }
  }

  lemma UpdateReduces(u: Sums, b: byte)
    ensures Reduce(Sums(u.s1 + b, u.s2 + u.s1 + b)) == Update(u, b) == Update(Reduce(u), b)
  {
    ModAdd(u.s1, b);
    ModAdd(u.s1 + b, u.s2);
    ModAdd(u.s2, (u.s1 + b) % BASE);
  }

  /** The checksum of a concatenation continues the checksum of its first part. */
  lemma {:induction false} ChecksumAppends(s: Sums, a: seq<byte>, b: seq<byte>)
    ensures Checksum(s, a + b) == Checksum(Checksum(s, a), b)
    decreases |b|
  {
    if b == [] {
      assert a + b == a;
    } else {
      assert (a + b)[..|a + b| - 1] == a + b[..|b| - 1];
      ChecksumAppends(s, a, b[..|b| - 1]);
    }
  }

  lemma {:induction false} UnreducedAppends(s: Sums, a: seq<byte>, b: seq<byte>)
    ensures Unreduced(s, a + b) == Unreduced(Unreduced(s, a), b)
    decreases |b|
  {
    if b == [] {
      assert a + b == a;
    } else {
      assert (a + b)[..|a + b| - 1] == a + b[..|b| - 1];
      UnreducedAppends(s, a, b[..|b| - 1]);
    }
  }

  /** How large the sums can become in k bytes. */
  function Limit2(k: nat): nat {
    if k == 0 then 0xffff else Limit2(k - 1) + 0xffff + 255 * k
  }

  lemma {:induction false} UnreducedIsBounded(s: Sums, buf: seq<byte>)
    requires s.s1 <= 0xffff && s.s2 <= 0xffff
    ensures Unreduced(s, buf).s1 <= 0xffff + 255 * |buf| && Unreduced(s, buf).s2 <= Limit2(|buf|)
    decreases |buf|
  {
    if buf != [] { UnreducedIsBounded(s, buf[..|buf| - 1]); }
  }

  lemma {:induction false} Limit2Closed(k: nat)
    ensures 2 * Limit2(k) == 2 * 0xffff * (k + 1) + 255 * k * (k + 1)
  {
    if k > 0 {
      Limit2Closed(k - 1);
      assert 255 * k * (k + 1) == 255 * (k - 1) * k + 2 * 255 * k;
    }
  }

  lemma {:induction false} Limit2Grows(k: nat, m: nat)
    requires k <= m
    ensures Limit2(k) <= Limit2(m)
    decreases m
  {
    if k < m { Limit2Grows(k, m - 1); }
  }

  /** 5552 bytes are not enough to overflow 32 bits, from any 16-bit start values. */
  lemma BlockFits(s: Sums, buf: seq<byte>)
    requires s.s1 <= 0xffff && s.s2 <= 0xffff && |buf| <= NMAX
    ensures Unreduced(s, buf).s1 < 0x1_0000_0000 && Unreduced(s, buf).s2 < 0x1_0000_0000
  {
    UnreducedIsBounded(s, buf);
    Limit2Grows(|buf|, NMAX);
    Limit2Closed(NMAX);
  }

  function Unpack(adler: u32): Sums {
    Sums(adler % 0x1_0000, adler / 0x1_0000)
  }

  function Pack(s: Sums): u32
    requires s.s1 < 0x1_0000 && s.s2 < 0x1_0000
  {
    s.s2 * 0x1_0000 + s.s1
  }

  lemma {:induction false} ChecksumFits(s: Sums, buf: seq<byte>)
    requires s.s1 < 0x1_0000 && s.s2 < 0x1_0000
    ensures Checksum(s, buf).s1 < 0x1_0000 && Checksum(s, buf).s2 < 0x1_0000
  {
  }

  /** The checksum of 32-bit value adler continued over buf. */
  function Adler32Of(adler: u32, buf: seq<byte>): u32 {
    ChecksumFits(Unpack(adler), buf);
    Pack(Checksum(Unpack(adler), buf))
  }

  lemma Adler32Appends(adler: u32, a: seq<byte>, b: seq<byte>)
    ensures Adler32Of(adler, a + b) == Adler32Of(Adler32Of(adler, a), b)
  {
    hide Unpack, Pack, Checksum;
    ChecksumAppends(Unpack(adler), a, b);
    ChecksumFits(Unpack(adler), a) by { UnpackFits(adler); }
    UnpackPack(Checksum(Unpack(adler), a));
  }

  lemma UnpackFits(adler: u32)
    ensures Unpack(adler).s1 < 0x1_0000 && Unpack(adler).s2 < 0x1_0000
  {
  }

  lemma UnpackPack(s: Sums)
    requires s.s1 < 0x1_0000 && s.s2 < 0x1_0000
    ensures Unpack(Pack(s)) == s
  {
  }

  lemma OneMore(s: Sums, buf: seq<byte>, at: nat, k: nat)
    requires at + k < |buf|
    ensures Unreduced(s, buf[at..at + k + 1])
         == var u := Unreduced(s, buf[at..at + k]); Sums(u.s1 + buf[at + k], u.s2 + u.s1 + buf[at + k])
  {
    var t := buf[at..at + k + 1];
    assert t[..|t| - 1] == buf[at..at + k];
  }

  /** One byte of the unrolled loop, in 32 bits. */
  method Do1(ghost s: Sums, buf: array<byte>, ghost at: nat, i: nat, a: u32, b: u32) returns (s1: u32, s2: u32)
    requires s.s1 <= 0xffff && s.s2 <= 0xffff
    requires at <= i < buf.Length && i + 1 - at <= NMAX
    requires Sums(a, b) == Unreduced(s, buf[at..i])
    ensures Sums(s1, s2) == Unreduced(s, buf[at..i + 1])
  {
    OneMore(s, buf[..], at, i - at);
    assert buf[..][at..i] == buf[at..i] && buf[..][at..i + 1] == buf[at..i + 1];
    BlockFits(s, buf[at..i + 1]);
    s1 := a + buf[i];
    s2 := b + s1;
  }

  method Do4(ghost s: Sums, buf: array<byte>, ghost at: nat, i: nat, a: u32, b: u32) returns (s1: u32, s2: u32)
    requires s.s1 <= 0xffff && s.s2 <= 0xffff
    requires at <= i && i + 4 <= buf.Length && i + 4 - at <= NMAX
    requires Sums(a, b) == Unreduced(s, buf[at..i])
    ensures Sums(s1, s2) == Unreduced(s, buf[at..i + 4])
  {
    s1, s2 := Do1(s, buf, at, i, a, b);
    s1, s2 := Do1(s, buf, at, i + 1, s1, s2);
    s1, s2 := Do1(s, buf, at, i + 2, s1, s2);
    s1, s2 := Do1(s, buf, at, i + 3, s1, s2);
  }

  method Do16(ghost s: Sums, buf: array<byte>, ghost at: nat, i: nat, a: u32, b: u32) returns (s1: u32, s2: u32)
    requires s.s1 <= 0xffff && s.s2 <= 0xffff
    requires at <= i && i + 16 <= buf.Length && i + 16 - at <= NMAX
    requires Sums(a, b) == Unreduced(s, buf[at..i])
    ensures Sums(s1, s2) == Unreduced(s, buf[at..i + 16])
  {
    s1, s2 := Do4(s, buf, at, i, a, b);
    s1, s2 := Do4(s, buf, at, i + 4, s1, s2);
    s1, s2 := Do4(s, buf, at, i + 8, s1, s2);
    s1, s2 := Do4(s, buf, at, i + 12, s1, s2);
  }

  /** One block of k bytes from position at: sixteen at a time, the rest singly, and one reduction. */
  method Block(buf: array<byte>, at: nat, block: nat, a: u32, b: u32) returns (s1: u32, s2: u32)
    requires 1 <= block <= NMAX && at + block <= buf.Length && a <= 0xffff && b <= 0xffff
    ensures Sums(s1, s2) == Checksum(Sums(a, b), buf[at..at + block])
    ensures s1 <= 0xffff && s2 <= 0xffff
  {
    ghost var s := Sums(a, b);
    var k: nat, i: nat := block, at;
    s1, s2 := a, b;
    assert buf[at..at] == [];
    while k >= 16
      invariant at <= i && i + k == at + block
      invariant Sums(s1, s2) == Unreduced(s, buf[at..i])
    {
      s1, s2 := Do16(s, buf, at, i, s1, s2);
      i, k := i + 16, k - 16;
    }
    while k > 0
      invariant at <= i && i + k == at + block
      invariant Sums(s1, s2) == Unreduced(s, buf[at..i])
    {
      s1, s2 := Do1(s, buf, at, i, s1, s2);
      i, k := i + 1, k - 1;
    }
    DeferredReduction(s, buf[at..at + block]);
    s1, s2 := s1 % BASE, s2 % BASE;
  }

  /** lzo_adler32: no sum overflows 32 bits, and the result is the per-byte checksum, from any 32-bit
      start value. */
  method Adler32(adler: u32, buf: array?<byte>, length: nat) returns (r: u32)
    requires buf != null ==> length <= buf.Length
    ensures r == if buf == null then 1 else Adler32Of(adler, buf[..length])
  {
    if buf == null { return 1; }
    hide Unpack, Checksum, Adler32Of;
    var s1: u32, s2: u32 := adler % 0x1_0000, adler / 0x1_0000 % 0x1_0000;
    var len: nat, at: nat := length, 0;
    Unpacked(adler);
    assert buf[..0] == [];
    while len > 0
      invariant at + len == length && s1 <= 0xffff && s2 <= 0xffff
      invariant Sums(s1, s2) == Checksum(Unpack(adler), buf[..at])
    {
      var k := if len < NMAX then len else NMAX;
      ChecksumAppends(Unpack(adler), buf[..at], buf[at..at + k]);
      assert buf[..at] + buf[at..at + k] == buf[..at + k];
      s1, s2 := Block(buf, at, k, s1, s2);
      len, at := len - k, at + k;
    }
    assert buf[..at] == buf[..length];
    Packed(adler, buf[..length]);
    r := s2 * 0x1_0000 + s1;
  }

  lemma Unpacked(adler: u32)
    ensures Checksum(Unpack(adler), []) == Sums(adler % 0x1_0000, adler / 0x1_0000 % 0x1_0000)
  {
  }

  lemma Packed(adler: u32, buf: seq<byte>)
    ensures var c := Checksum(Unpack(adler), buf); Adler32Of(adler, buf) == c.s2 * 0x1_0000 + c.s1
  {
  }
}
