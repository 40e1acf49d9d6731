/** The key schedule (section 4.3 of the Twofish paper): the function g both directly and through the
    precomputed key-dependent S-boxes, and the expanded subkeys. */
module TwofishKeys {
  import opened TwofishBlock
  import opened TwofishReedSolomon

  /** The fixed permutations P[0], P[1] and the four columns of the MDS matrix; their contents play no
      part here. */
  datatype Tables = Tables(p: seq<seq<octet>>, mds: seq<seq<word>>)

  type Fixed = f: Tables | |f.p| == 2 && (forall i :: 0 <= i < 2 ==> |f.p[i]| == 256)
                        && |f.mds| == 4 && (forall i :: 0 <= i < 4 ==> |f.mds[i]| == 256)
    witness Tables(seq(2, _ => seq(256, _ => 0)), seq(4, _ => seq(256, _ => 0)))

  /** Which permutation column c uses for its stage 1 to 4 (figure 2 of the Twofish paper). */
  function Perm(c: nat, stage: nat): (r: nat)
    requires c < 4 && 1 <= stage <= 4
    ensures r < 2
  {
    match stage
    case 1 => if c < 2 then 0 else 1
    case 2 => c % 2
    case 3 => 1 - Perm(c, 1)
    case _ => if c == 0 || c == 3 then 1 else 0
  }

  /** The byte b permuted by P[p], with byte c of the key word mixed in. */
  function Mixed(f: Fixed, p: nat, b: octet, k: word, c: nat): octet
    requires p < 2
  {
    f.p[p][b as int] ^ ByteOf(k, c)
  }

  /** The permuted byte of column c after its stages from top down to 1; stage s uses key word s - 1. */
  function Stages(f: Fixed, keys: seq<word>, c: nat, top: nat, b: octet): octet
    requires c < 4 && |keys| == 4 && top <= 4
  {
    if top == 0 then b else Stages(f, keys, c, top - 1, Mixed(f, Perm(c, top), b, keys[top - 1], c))
  }

  /** Entry b of column c of the MDS matrix. */
  function Mds(f: Fixed, c: nat, b: octet): word
    requires c < 4
  {
    f.mds[c][b as int]
  }

  /** Column c of the function g for the byte b: as many stages as the key has 64-bit units. */
  function Column(f: Fixed, cnt: nat, keys: seq<word>, c: nat, b: octet): word
    requires c < 4 && |keys| == 4
  {
    Mds(f, c, Stages(f, keys, c, if cnt % 4 == 0 then 4 else cnt % 4, b))
  }

  /** The function g of the word x. */
  function G(f: Fixed, cnt: nat, x: word, keys: seq<word>): word
    requires |keys| == 4
  {
    Xor4(Column(f, cnt, keys, 0, ByteOf(x, 0)), Column(f, cnt, keys, 1, ByteOf(x, 1)),
         Column(f, cnt, keys, 2, ByteOf(x, 2)), Column(f, cnt, keys, 3, ByteOf(x, 3)))
  }

  // ----- the direct function

  const P_01 := 0
  const P_02 := 0
  const P_03 := 1
  const P_04 := 1
  const P_11 := 0
  const P_12 := 1
  const P_13 := 1
  const P_14 := 0
  const P_21 := 1
  const P_22 := 0
  const P_23 := 0
  const P_24 := 0
  const P_31 := 1
  const P_32 := 1
  const P_33 := 0
  const P_34 := 1

  /** _TwoFish_F32: one stage for 64-bit keys; otherwise the stages of the longer keys come first and run on
      into those of the shorter ones. */
  function F32(f: Fixed, cnt: nat, x: word, k: seq<word>): word
    requires |k| == 4
  {
    var b0, b1, b2, b3 := ByteOf(x, 0), ByteOf(x, 1), ByteOf(x, 2), ByteOf(x, 3);
    if cnt % 4 == 1 then
      Xor4(Mds(f, 0, Mixed(f, P_01, b0, k[0], 0)), Mds(f, 1, Mixed(f, P_11, b1, k[0], 1)),
           Mds(f, 2, Mixed(f, P_21, b2, k[0], 2)), Mds(f, 3, Mixed(f, P_31, b3, k[0], 3)))
    else
      var b0 := if cnt % 4 == 0 then Mixed(f, P_04, b0, k[3], 0) else b0;
      var b1 := if cnt % 4 == 0 then Mixed(f, P_14, b1, k[3], 1) else b1;
      var b2 := if cnt % 4 == 0 then Mixed(f, P_24, b2, k[3], 2) else b2;
      var b3 := if cnt % 4 == 0 then Mixed(f, P_34, b3, k[3], 3) else b3;
      var b0 := if cnt % 4 == 0 || cnt % 4 == 3 then Mixed(f, P_03, b0, k[2], 0) else b0;
      var b1 := if cnt % 4 == 0 || cnt % 4 == 3 then Mixed(f, P_13, b1, k[2], 1) else b1;
      var b2 := if cnt % 4 == 0 || cnt % 4 == 3 then Mixed(f, P_23, b2, k[2], 2) else b2;
      var b3 := if cnt % 4 == 0 || cnt % 4 == 3 then Mixed(f, P_33, b3, k[2], 3) else b3;
      Xor4(Mds(f, 0, Mixed(f, P_01, Mixed(f, P_02, b0, k[1], 0), k[0], 0)),
           Mds(f, 1, Mixed(f, P_11, Mixed(f, P_12, b1, k[1], 1), k[0], 1)),
           Mds(f, 2, Mixed(f, P_21, Mixed(f, P_22, b2, k[1], 2), k[0], 2)),
           Mds(f, 3, Mixed(f, P_31, Mixed(f, P_32, b3, k[1], 3), k[0], 3)))
  }

  /** A column written out stage by stage. */
  lemma ColumnStages(f: Fixed, cnt: nat, k: seq<word>, c: nat, b: octet)
    requires c < 4 && |k| == 4
    ensures cnt % 4 == 1 ==> Column(f, cnt, k, c, b) == Mds(f, c, Mixed(f, Perm(c, 1), b, k[0], c))
    ensures cnt % 4 != 1 ==>
              var b4 := if cnt % 4 == 0 then Mixed(f, Perm(c, 4), b, k[3], c) else b;
              var b3 := if cnt % 4 == 0 || cnt % 4 == 3 then Mixed(f, Perm(c, 3), b4, k[2], c) else b4;
              Column(f, cnt, k, c, b) == Mds(f, c, Mixed(f, Perm(c, 1), Mixed(f, Perm(c, 2), b3, k[1], c), k[0], c))
  {
    hide Mixed, Mds, Perm;
    assert cnt % 4 == 1 ==> Stages(f, k, c, 1, b) == Stages(f, k, c, 0, Mixed(f, Perm(c, 1), b, k[0], c));
    var b4 := if cnt % 4 == 0 then Mixed(f, Perm(c, 4), b, k[3], c) else b;
    var b3 := if cnt % 4 == 0 || cnt % 4 == 3 then Mixed(f, Perm(c, 3), b4, k[2], c) else b4;
    var b2 := Mixed(f, Perm(c, 2), b3, k[1], c);
    assert Stages(f, k, c, 2, b3) == Stages(f, k, c, 1, b2) == Mixed(f, Perm(c, 1), b2, k[0], c);
    assert cnt % 4 == 0 ==> Stages(f, k, c, 4, b) == Stages(f, k, c, 3, b4) == Stages(f, k, c, 2, b3);
    assert cnt % 4 == 3 ==> Stages(f, k, c, 3, b) == Stages(f, k, c, 2, b3);
  }

  /** The direct function, with its permutations and key words written out case by case, is g. */
  lemma F32IsG(f: Fixed, cnt: nat, x: word, k: seq<word>)
    requires |k| == 4
    ensures F32(f, cnt, x, k) == G(f, cnt, x, k)
  {
    hide Xor4, ByteOf, Mixed, Mds, Column;
    ColumnStages(f, cnt, k, 0, ByteOf(x, 0));
    ColumnStages(f, cnt, k, 1, ByteOf(x, 1));
    ColumnStages(f, cnt, k, 2, ByteOf(x, 2));
    ColumnStages(f, cnt, k, 3, ByteOf(x, 3));
  }

  /** _TwoFish_Fe32, with a rotating byte selection. */
  function Fe32(sBox: seq<word>, x: word, r: nat): word
    requires |sBox| == 0x400
  {
    Xor4(sBox[2 * ByteOf(x, r) as int], sBox[2 * ByteOf(x, r + 1) as int + 1],
         sBox[0x200 + 2 * ByteOf(x, r + 2) as int], sBox[0x200 + 2 * ByteOf(x, r + 3) as int + 1])
  }

  function Rol(x: word, n: nat): word
    requires 0 < n < 32
  {
    (x << n) | (x >> (32 - n))
  }

  /** The first n entries of each column are in the table. */
  ghost predicate Filled(f: Fixed, cnt: nat, keys: seq<word>, sBox: seq<word>, n: nat)
    requires |keys| == 4
  {
    && |sBox| == 0x400
    && n <= 256
    && forall i :: 0 <= i < n ==> EntryFilled(f, cnt, keys, sBox, i)
  }

  ghost predicate EntryFilled(f: Fixed, cnt: nat, keys: seq<word>, sBox: seq<word>, i: nat)
    requires |keys| == 4 && |sBox| == 0x400 && i < 256
  {
    && sBox[2 * i] == Column(f, cnt, keys, 0, i as octet)
    && sBox[2 * i + 1] == Column(f, cnt, keys, 1, i as octet)
    && sBox[0x200 + 2 * i] == Column(f, cnt, keys, 2, i as octet)
    && sBox[0x200 + 2 * i + 1] == Column(f, cnt, keys, 3, i as octet)
  }

  lemma OctetRoundTrip(b: octet)
    ensures 0 <= b as int < 256 && (b as int) as octet == b
  {
  }

  lemma EntryOf(f: Fixed, cnt: nat, keys: seq<word>, sBox: seq<word>, b: octet)
    requires |keys| == 4 && Filled(f, cnt, keys, sBox, 256)
    ensures sBox[2 * b as int] == Column(f, cnt, keys, 0, b)
    ensures sBox[2 * b as int + 1] == Column(f, cnt, keys, 1, b)
    ensures sBox[0x200 + 2 * b as int] == Column(f, cnt, keys, 2, b)
    ensures sBox[0x200 + 2 * b as int + 1] == Column(f, cnt, keys, 3, b)
  {
    hide Column;
    OctetRoundTrip(b);
    assert EntryFilled(f, cnt, keys, sBox, b as int);
  }

  lemma RotatedBytes(x: word)
    ensures ByteOf(Rol(x, 8), 0) == ByteOf(x, 3) && ByteOf(Rol(x, 8), 1) == ByteOf(x, 0)
    ensures ByteOf(Rol(x, 8), 2) == ByteOf(x, 1) && ByteOf(Rol(x, 8), 3) == ByteOf(x, 2)
    ensures ByteOf(x, 4) == ByteOf(x, 0) && ByteOf(x, 5) == ByteOf(x, 1) && ByteOf(x, 6) == ByteOf(x, 2)
  {
    hide ByteOf, Rol;
    RotatedByte0(x);
    RotatedByte1(x);
    RotatedByte2(x);
    RotatedByte3(x);
    WrappedIndex(x);
  }

  lemma RotatedByte0(x: word)
    ensures ByteOf(Rol(x, 8), 0) == ByteOf(x, 3)
  {
  }

  lemma RotatedByte1(x: word)
    ensures ByteOf(Rol(x, 8), 1) == ByteOf(x, 0)
  {
  }

  lemma RotatedByte2(x: word)
    ensures ByteOf(Rol(x, 8), 2) == ByteOf(x, 1)
  {
  }

  lemma RotatedByte3(x: word)
    ensures ByteOf(Rol(x, 8), 3) == ByteOf(x, 2)
  {
  }

  lemma WrappedIndex(x: word)
    ensures ByteOf(x, 4) == ByteOf(x, 0) && ByteOf(x, 5) == ByteOf(x, 1) && ByteOf(x, 6) == ByteOf(x, 2)
  {
  }

  /** The byte-rotating lookup covers both specialised ones. */
  lemma Fe32Agrees(sBox: seq<word>, x: word)
    requires |sBox| == 0x400
    ensures Fe32(sBox, x, 0) == Fe320(sBox, x) && Fe32(sBox, x, 3) == Fe323(sBox, x)
  {
    hide Xor4, ByteOf, Rol;
    RotatedBytes(x);
  }

  /** The table lookups used in the rounds are the direct function of the word and of the word rotated by
      a byte, for every key and every word. */
  lemma Fe320Agrees(f: Fixed, cnt: nat, keys: seq<word>, sBox: seq<word>, x: word)
    requires |keys| == 4 && Filled(f, cnt, keys, sBox, 256)
    ensures Fe320(sBox, x) == F32(f, cnt, x, keys)
  {
    hide Column, Xor4, ByteOf, Filled, F32;
    EntryOf(f, cnt, keys, sBox, ByteOf(x, 0));
    EntryOf(f, cnt, keys, sBox, ByteOf(x, 1));
    EntryOf(f, cnt, keys, sBox, ByteOf(x, 2));
    EntryOf(f, cnt, keys, sBox, ByteOf(x, 3));
    F32IsG(f, cnt, x, keys);
  }

  lemma Fe323Agrees(f: Fixed, cnt: nat, keys: seq<word>, sBox: seq<word>, x: word)
    requires |keys| == 4 && Filled(f, cnt, keys, sBox, 256)
    ensures Fe323(sBox, x) == F32(f, cnt, Rol(x, 8), keys)
  {
    hide Column, Xor4, ByteOf, Filled, Rol, F32;
    RotatedBytes(x);
    EntryOf(f, cnt, keys, sBox, ByteOf(x, 0));
    EntryOf(f, cnt, keys, sBox, ByteOf(x, 1));
    EntryOf(f, cnt, keys, sBox, ByteOf(x, 2));
    EntryOf(f, cnt, keys, sBox, ByteOf(x, 3));
    F32IsG(f, cnt, Rol(x, 8), keys);
  }

  // ----- the expanded subkeys

  const SK_BUMP: word := 0x01010101

  function Add(a: word, b: word): word { a + b }

  /** n times the constant rho = 2^24 + 2^16 + 2^8 + 1, in 32 bits: q after n bumps. */
  function Rho(n: nat): word {
    if n == 0 then 0 else Add(Rho(n - 1), SK_BUMP)
  }

  /** A_i and B_i of section 4.3. */
  function SubKeyA(f: Fixed, cnt: nat, even: seq<word>, i: nat): word
    requires |even| == 4
  {
    G(f, cnt, Rho(2 * i), even)
  }

  function SubKeyB(f: Fixed, cnt: nat, odd: seq<word>, i: nat): word
    requires |odd| == 4
  {
    Rol(G(f, cnt, Rho(2 * i + 1), odd), 8)
  }

  /** K_2i and K_2i+1: a pseudo-Hadamard transform of A_i and B_i. */
  ghost predicate SubKeyPair(f: Fixed, cnt: nat, even: seq<word>, odd: seq<word>, sk: seq<word>, i: nat)
    requires |even| == 4 && |odd| == 4 && |sk| == 40 && i < 20
  {
    var a, b := SubKeyA(f, cnt, even, i), SubKeyB(f, cnt, odd, i);
    sk[2 * i] == Add(a, b) && sk[2 * i + 1] == Rol(Add(Add(a, b), b), 9)
  }

  lemma EntryKept(f: Fixed, cnt: nat, keys: seq<word>, before: seq<word>, now: seq<word>, i: nat, j: nat)
    requires |keys| == 4 && |before| == |now| == 0x400 && j < i < 256 && EntryFilled(f, cnt, keys, before, j)
    requires forall m :: 0 <= m < 0x400 && m !in EntryCells(i) ==> now[m] == before[m]
    ensures EntryFilled(f, cnt, keys, now, j)
  {
    hide Column;
  }

  /** Where entry i of each column stands. */
  function EntryCells(i: nat): set<nat> {
    {2 * i, 2 * i + 1, 0x200 + 2 * i, 0x200 + 2 * i + 1}
  }

  /** Entry i of each column, for the byte b, staged in place: the cases of the longer keys run on into the
      shorter ones. */
  method FillEntry(f: Fixed, cnt: nat, k: seq<word>, sBox: array<word>, i: nat, b: octet)
    requires |k| == 4 && sBox.Length == 0x400 && i < 256
    modifies sBox
    ensures sBox[2 * i] == Column(f, cnt, k, 0, b) && sBox[2 * i + 1] == Column(f, cnt, k, 1, b)
    ensures sBox[0x200 + 2 * i] == Column(f, cnt, k, 2, b) && sBox[0x200 + 2 * i + 1] == Column(f, cnt, k, 3, b)
    ensures forall m :: 0 <= m < 0x400 && m !in EntryCells(i) ==> sBox[m] == old(sBox[m])
  {
    hide Mixed, Column, Mds, EntryCells;
    var b0, b1, b2, b3 := b, b, b, b;
    ColumnStages(f, cnt, k, 0, b);
    ColumnStages(f, cnt, k, 1, b);
    ColumnStages(f, cnt, k, 2, b);
    ColumnStages(f, cnt, k, 3, b);
    if cnt % 4 == 1 {
      StoreEntry(sBox, i, Mds(f, 0, Mixed(f, P_01, b0, k[0], 0)), Mds(f, 1, Mixed(f, P_11, b1, k[0], 1)),
                 Mds(f, 2, Mixed(f, P_21, b2, k[0], 2)), Mds(f, 3, Mixed(f, P_31, b3, k[0], 3)));
    } else {
      if cnt % 4 == 0 {
        b0, b1 := Mixed(f, P_04, b0, k[3], 0), Mixed(f, P_14, b1, k[3], 1);
        b2, b3 := Mixed(f, P_24, b2, k[3], 2), Mixed(f, P_34, b3, k[3], 3);
      }
      if cnt % 4 == 0 || cnt % 4 == 3 {
        b0, b1 := Mixed(f, P_03, b0, k[2], 0), Mixed(f, P_13, b1, k[2], 1);
        b2, b3 := Mixed(f, P_23, b2, k[2], 2), Mixed(f, P_33, b3, k[2], 3);
      }
      StoreEntry(sBox, i, Mds(f, 0, Mixed(f, P_01, Mixed(f, P_02, b0, k[1], 0), k[0], 0)),
                 Mds(f, 1, Mixed(f, P_11, Mixed(f, P_12, b1, k[1], 1), k[0], 1)),
                 Mds(f, 2, Mixed(f, P_21, Mixed(f, P_22, b2, k[1], 2), k[0], 2)),
                 Mds(f, 3, Mixed(f, P_31, Mixed(f, P_32, b3, k[1], 3), k[0], 3)));
    }
  }

  method StoreEntry(sBox: array<word>, i: nat, w0: word, w1: word, w2: word, w3: word)
    requires sBox.Length == 0x400 && i < 256
    modifies sBox
    ensures sBox[2 * i] == w0 && sBox[2 * i + 1] == w1 && sBox[0x200 + 2 * i] == w2 && sBox[0x200 + 2 * i + 1] == w3
    ensures forall m :: 0 <= m < 0x400 && m !in EntryCells(i) ==> sBox[m] == old(sBox[m])
  {
    sBox[2 * i], sBox[2 * i + 1] := w0, w1;
    sBox[0x200 + 2 * i], sBox[0x200 + 2 * i + 1] := w2, w3;
  }

  lemma EntryWritten(f: Fixed, cnt: nat, keys: seq<word>, sBox: seq<word>, i: nat, b: octet)
    requires |keys| == 4 && |sBox| == 0x400 && i < 256 && b == i as octet
    requires sBox[2 * i] == Column(f, cnt, keys, 0, b) && sBox[2 * i + 1] == Column(f, cnt, keys, 1, b)
    requires sBox[0x200 + 2 * i] == Column(f, cnt, keys, 2, b) && sBox[0x200 + 2 * i + 1] == Column(f, cnt, keys, 3, b)
    ensures EntryFilled(f, cnt, keys, sBox, i)
  {
    hide Column;
  }

  /** The S-box part of _TwoFish_MakeSubKeys. */
  method FillSBox(f: Fixed, cnt: nat, keys: seq<word>) returns (sBox: array<word>)
    requires |keys| == 4
    ensures fresh(sBox) && Filled(f, cnt, keys, sBox[..], 256)
  {
    hide EntryFilled, EntryCells, Column;
    sBox := new word[0x400](_ => 0);
    var i: nat := 0;
    while i < 256
      invariant i <= 256 && sBox.Length == 0x400
      invariant forall j :: 0 <= j < i ==> EntryFilled(f, cnt, keys, sBox[..], j)
    {
      ghost var before := sBox[..];
      var b := i as octet;
      FillEntry(f, cnt, keys, sBox, i, b);
      EntryWritten(f, cnt, keys, sBox[..], i, b);
      forall j | 0 <= j < i ensures EntryFilled(f, cnt, keys, sBox[..], j) {
        EntryKept(f, cnt, keys, before, sBox[..], i, j);
      }
      i := i + 1;
    }
  }

  lemma PairWritten(f: Fixed, cnt: nat, even: seq<word>, odd: seq<word>, sk: seq<word>, i: nat, a: word, b: word)
    requires |even| == 4 && |odd| == 4 && |sk| == 40 && i < 20
    requires a == F32(f, cnt, Rho(2 * i), even) && b == Rol(F32(f, cnt, Rho(2 * i + 1), odd), 8)
    requires sk[2 * i] == Add(a, b) && sk[2 * i + 1] == Rol(Add(Add(a, b), b), 9)
    ensures SubKeyPair(f, cnt, even, odd, sk, i)
  {
    hide F32, G, Rol, Add, Rho;
    F32IsG(f, cnt, Rho(2 * i), even);
    F32IsG(f, cnt, Rho(2 * i + 1), odd);
  }

  lemma PairKept(f: Fixed, cnt: nat, even: seq<word>, odd: seq<word>, was: seq<word>, now: seq<word>, i: nat)
    requires |even| == 4 && |odd| == 4 && |was| == |now| == 40 && i < 20 && SubKeyPair(f, cnt, even, odd, was, i)
    requires now[2 * i] == was[2 * i] && now[2 * i + 1] == was[2 * i + 1]
    ensures SubKeyPair(f, cnt, even, odd, now, i)
  {
    hide SubKeyA, SubKeyB, Rol, Add;
  }

  /** The subkey part: q is bumped before each use of the function g. */
  method FillSubKeys(f: Fixed, cnt: nat, even: seq<word>, odd: seq<word>) returns (sk: array<word>)
    requires |even| == 4 && |odd| == 4
    ensures fresh(sk) && sk.Length == 40
    ensures forall j :: 0 <= j < 20 ==> SubKeyPair(f, cnt, even, odd, sk[..], j)
  {
    hide F32, Rol, Add, SubKeyPair;
    sk := new word[40](_ => 0);
    var i: nat, q: word := 0, 0;
    while i < 40
      invariant i % 2 == 0 && i <= 40 && sk.Length == 40
      invariant q == Rho(i)
      invariant forall j :: 0 <= j < i / 2 ==> SubKeyPair(f, cnt, even, odd, sk[..], j)
    {
      ghost var before := sk[..];
      var a := F32(f, cnt, q, even);
      q := Add(q, SK_BUMP);
      var b := F32(f, cnt, q, odd);
      q := Add(q, SK_BUMP);
      b := Rol(b, 8);
      ghost var a0 := a;
      a := Add(a, b);
      sk[i] := a;
      i := i + 1;
      a := Add(a, b);
      sk[i] := Rol(a, 9);
      i := i + 1;
      PairWritten(f, cnt, even, odd, sk[..], i / 2 - 1, a0, b);
      forall j | 0 <= j < i / 2 - 1 ensures SubKeyPair(f, cnt, even, odd, sk[..], j) {
        PairKept(f, cnt, even, odd, before, sk[..], j);
      }
    }
  }

  // ----- the words of the user key

  const KEY_LENGTH := 32

  type UserKey = k: seq<octet> | |k| == KEY_LENGTH witness seq(KEY_LENGTH, _ => 0)

  /** Word i of the user key, least significant byte first. */
  function KeyWord(key: UserKey, i: nat): word
    requires i < 8
  {
    WordOf(key[4 * i], key[4 * i + 1], key[4 * i + 2], key[4 * i + 3])
  }

  /** M_e, M_o and S of section 4.3; the words of S come in reverse order. */
  function Even(key: UserKey): (r: seq<word>)
    ensures |r| == 4
  {
    [KeyWord(key, 0), KeyWord(key, 2), KeyWord(key, 4), KeyWord(key, 6)]
  }

  function Odd(key: UserKey): (r: seq<word>)
    ensures |r| == 4
  {
    [KeyWord(key, 1), KeyWord(key, 3), KeyWord(key, 5), KeyWord(key, 7)]
  }

  function SBoxWords(key: UserKey): (r: seq<word>)
    ensures |r| == 4
  {
    [RsWord(KeyWord(key, 6), KeyWord(key, 7)), RsWord(KeyWord(key, 4), KeyWord(key, 5)),
     RsWord(KeyWord(key, 2), KeyWord(key, 3)), RsWord(KeyWord(key, 0), KeyWord(key, 1))]
  }

  /** The loop that splits the key: even and odd words in order, their code words from the end. */
  method SplitKey(key: UserKey) returns (k32e: seq<word>, k32o: seq<word>, sBoxKey: seq<word>)
    ensures k32e == Even(key) && k32o == Odd(key) && sBoxKey == SBoxWords(key)
  {
    hide KeyWord, RsWord;
    var offset: nat, i: nat := 0, 0;
    k32e, k32o, sBoxKey := [], [], [];
    while i < 4 && offset < KEY_LENGTH
      invariant i <= 4 && offset == 8 * i
      invariant k32e == Even(key)[..i] && k32o == Odd(key)[..i] && sBoxKey == SBoxWords(key)[4 - i..]
    {
      WordAt(key, offset, 2 * i);
      WordAt(key, offset + 4, 2 * i + 1);
      KeyParts(key, i);
      k32e := k32e + [WordOf(key[offset], key[offset + 1], key[offset + 2], key[offset + 3])];
      offset := offset + 4;
      k32o := k32o + [WordOf(key[offset], key[offset + 1], key[offset + 2], key[offset + 3])];
      offset := offset + 4;
      var s := RsEncode(k32e[i], k32o[i]);
      sBoxKey := [s] + sBoxKey;
      i := i + 1;
    }
  }

  lemma WordAt(key: UserKey, offset: nat, i: nat)
    requires i < 8 && offset == 4 * i
    ensures KeyWord(key, i) == WordOf(key[offset], key[offset + 1], key[offset + 2], key[offset + 3])
  {
    hide WordOf;
  }

  lemma KeyParts(key: UserKey, i: nat)
    requires i < 4
    ensures Even(key)[..i + 1] == Even(key)[..i] + [KeyWord(key, 2 * i)]
    ensures Odd(key)[..i + 1] == Odd(key)[..i] + [KeyWord(key, 2 * i + 1)]
    ensures SBoxWords(key)[3 - i..] == [RsWord(KeyWord(key, 2 * i), KeyWord(key, 2 * i + 1))] + SBoxWords(key)[4 - i..]
  {
    hide KeyWord, RsWord, Even, Odd, SBoxWords;
    EvenAt(key, i);
    OddAt(key, i);
    SBoxWordAt(key, i);
  }

  lemma EvenAt(key: UserKey, i: nat)
    requires i < 4
    ensures Even(key)[i] == KeyWord(key, 2 * i)
  {
    hide KeyWord;
  }

  lemma OddAt(key: UserKey, i: nat)
    requires i < 4
    ensures Odd(key)[i] == KeyWord(key, 2 * i + 1)
  {
    hide KeyWord;
  }

  lemma SBoxWordAt(key: UserKey, i: nat)
    requires i < 4
    ensures SBoxWords(key)[3 - i] == RsWord(KeyWord(key, 2 * i), KeyWord(key, 2 * i + 1))
  {
    hide KeyWord, RsWord;
  }

  /** _TwoFish_MakeSubKeys: the key state for the 32 bytes of a user key. */
  method MakeSubKeys(f: Fixed, userKey: UserKey) returns (key: Key)
    ensures forall x :: Fe320(key.sBox, x) == F32(f, KEY_LENGTH / 8, x, SBoxWords(userKey))
    ensures forall x :: Fe323(key.sBox, x) == F32(f, KEY_LENGTH / 8, Rol(x, 8), SBoxWords(userKey))
    ensures forall j :: 0 <= j < 20 ==>
              SubKeyPair(f, KEY_LENGTH / 8, Even(userKey), Odd(userKey), key.subKeys, j)
  {
    hide Filled, SubKeyPair, Fe320, Fe323, F32, Rol, Even, Odd, SBoxWords;
    var even, odd, sBoxKey := SplitKey(userKey);
    var cnt := KEY_LENGTH / 8;
    var sk := FillSubKeys(f, cnt, even, odd);
    var sb := FillSBox(f, cnt, sBoxKey);
    assert |sb[..]| == 0x400 by { TableSize(f, cnt, sBoxKey, sb[..]); }
    forall x ensures Fe320(sb[..], x) == F32(f, cnt, x, sBoxKey) { Fe320Agrees(f, cnt, sBoxKey, sb[..], x); }
    forall x ensures Fe323(sb[..], x) == F32(f, cnt, Rol(x, 8), sBoxKey) { Fe323Agrees(f, cnt, sBoxKey, sb[..], x); }
    key := KeyTables(sb[..], sk[..]);
  }

  lemma TableSize(f: Fixed, cnt: nat, keys: seq<word>, sBox: seq<word>)
    requires |keys| == 4 && Filled(f, cnt, keys, sBox, 256)
    ensures |sBox| == 0x400
  {
  }

  /** The words of the key, byte by byte. */
  lemma KeyBytes(key: UserKey, i: nat)
    requires i < 4
    ensures Bytes4(Even(key)[i]) == key[8 * i..8 * i + 4]
    ensures Bytes4(Odd(key)[i]) == key[8 * i + 4..8 * i + 8]
  {
    hide Bytes4, KeyWord, Even, Odd;
    EvenAt(key, i);
    OddAt(key, i);
    KeyWordBytes(key, 2 * i, 8 * i);
    KeyWordBytes(key, 2 * i + 1, 8 * i + 4);
  }

  lemma KeyWordBytes(key: UserKey, i: nat, offset: nat)
    requires i < 8 && offset == 4 * i
    ensures Bytes4(KeyWord(key, i)) == key[offset..offset + 4]
  {
    hide ByteOf, WordOf;
    WordBytes(key[offset], key[offset + 1], key[offset + 2], key[offset + 3]);
  }

  /** The words for the S-boxes, from the last to the first, are the remainders of the eight key bytes each. */
  lemma SBoxWordsAreRemainders(key: UserKey, i: nat)
    requires i < 4
    ensures exists q :: |q| == 8 && Remains([0, 0, 0, 0] + key[8 * i..8 * i + 8], q, SBoxWords(key)[3 - i])
  {
    hide Remains, RsWord, Bytes4, Even, Odd, SBoxWords, KeyWord;
    EvenAt(key, i);
    OddAt(key, i);
    SBoxWordAt(key, i);
    KeyBytes(key, i);
    assert key[8 * i..8 * i + 4] + key[8 * i + 4..8 * i + 8] == key[8 * i..8 * i + 8];
    RsWordIsRemainder(KeyWord(key, 2 * i), KeyWord(key, 2 * i + 1));
  }
}
