/** The cipher as sections 4.1 and 4.2 of the Twofish paper define it: sixteen single rounds, for any function g
    and any forty subkeys. */
module TwofishPaper {
  import opened TwofishBlock
  import opened TwofishReedSolomon
  import opened TwofishKeys

  datatype Quad = Quad(r0: word, r1: word, r2: word, r3: word)

  function Ror(x: word): word { (x >> 1) | (x << 31) }

  function Plus3(a: word, b: word, c: word): word { a + b + c }

  function Twice(x: word): word { x + x }

  /** The i-th word of a block, least significant byte first. */
  function LittleEndian(b: Block, i: nat): word
    requires i < 4
  {
    Digits(b[4 * i], b[4 * i + 1], b[4 * i + 2], b[4 * i + 3])
  }

  function Digits(b0: octet, b1: octet, b2: octet, b3: octet): word {
    (b0 as word) + 0x100 * (b1 as word) + 0x1_0000 * (b2 as word) + 0x100_0000 * (b3 as word)
  }

  function Round(g: word -> word, k: seq<word>, r: nat, q: Quad): Quad
    requires |k| == 40 && r < 16
  {
    var t0, t1 := g(q.r0), g(Rol(q.r1, 8));
    var f0, f1 := Plus3(t0, t1, k[2 * r + 8]), Plus3(t0, Twice(t1), k[2 * r + 9]);
    Quad(Ror(Xor(q.r2, f0)), Xor(Rol(q.r3, 1), f1), q.r0, q.r1)
  }

  /** The first n rounds. */
  function Rounds(g: word -> word, k: seq<word>, n: nat, q: Quad): Quad
    requires |k| == 40 && n <= 16
  {
    if n == 0 then q else Round(g, k, n - 1, Rounds(g, k, n - 1, q))
  }

  function Input(k: seq<word>, p: Block): Quad
    requires |k| == 40
  {
    Quad(Xor(LittleEndian(p, 0), k[0]), Xor(LittleEndian(p, 1), k[1]),
         Xor(LittleEndian(p, 2), k[2]), Xor(LittleEndian(p, 3), k[3]))
  }

  /** c is the ciphertext of p: the last swap is undone, and the words are whitened. */
  ghost predicate IsCiphertext(g: word -> word, k: seq<word>, p: Block, c: Block)
    requires |k| == 40
  {
    var q := Rounds(g, k, 16, Input(k, p));
    && LittleEndian(c, 0) == Xor(q.r2, k[4]) && LittleEndian(c, 1) == Xor(q.r3, k[5])
    && LittleEndian(c, 2) == Xor(q.r0, k[6]) && LittleEndian(c, 3) == Xor(q.r1, k[7])
  }

  /** The tables compute g, of a word and of a word rotated by a byte. */
  ghost predicate Computes(key: Key, g: word -> word) {
    forall x: word :: Fe320(key.sBox, x) == g(x) && Fe323(key.sBox, x) == g(Rol(x, 8))
  }

  // ----- the code's block function is this cipher

  lemma WordOfIsSum(b0: octet, b1: octet, b2: octet, b3: octet)
    ensures WordOf(b0, b1, b2, b3) == Digits(b0, b1, b2, b3)
  {
  }

  lemma LoadIsLittleEndian(b: Block)
    ensures Load(b).x0 == LittleEndian(b, 0) && Load(b).x1 == LittleEndian(b, 1)
    ensures Load(b).x2 == LittleEndian(b, 2) && Load(b).x3 == LittleEndian(b, 3)
  {
    hide WordOf, Digits;
    WordOfIsSum(b[0], b[1], b[2], b[3]);
    WordOfIsSum(b[4], b[5], b[6], b[7]);
    WordOfIsSum(b[8], b[9], b[10], b[11]);
    WordOfIsSum(b[12], b[13], b[14], b[15]);
  }

  lemma ShiftIsTwice(x: word)
    ensures Shl1(x) == Twice(x)
  {
  }

  lemma SumIsPlus3(a: word, b: word, c: word)
    ensures Sum(a, b, c) == Plus3(a, b, c)
  {
  }

  lemma F0IsSum(key: Key, g: word -> word, a: word, b: word, k: nat)
    requires Computes(key, g) && k < 40
    ensures F0(key, a, b, k) == Plus3(g(a), g(Rol(b, 8)), key.subKeys[k])
  {
    hide Fe320, Fe323, Rol, Sum, Plus3;
    SumIsPlus3(g(a), g(Rol(b, 8)), key.subKeys[k]);
  }

  lemma F1IsSum(key: Key, g: word -> word, a: word, b: word, k: nat)
    requires Computes(key, g) && k < 40
    ensures F1(key, a, b, k) == Plus3(g(a), Twice(g(Rol(b, 8))), key.subKeys[k])
  {
    hide Fe320, Fe323, Rol, Twice, Sum, Shl1, Plus3;
    ShiftIsTwice(Fe323(key.sBox, b));
    SumIsPlus3(g(a), Twice(g(Rol(b, 8))), key.subKeys[k]);
  }

  lemma Rotations(x: word)
    ensures Ror1(x) == Ror(x) && Rol1(x) == Rol(x, 1)
  {
  }

  lemma RotatedXor(x: word, f: word)
    ensures XorRor(x, f) == Ror(Xor(x, f)) && RolXor(x, f) == Xor(Rol(x, 1), f)
  {
    hide Rol, Rol1, Ror, Ror1;
    Rotations(x);
    Rotations(Xor(x, f));
  }

  function AsQuad(w: Words): Quad { Quad(w.x0, w.x1, w.x2, w.x3) }

  /** The code's double round is two rounds. */
  lemma DoubleRound(key: Key, g: word -> word, w: Words, m: nat)
    requires Computes(key, g) && m < 8
    ensures AsQuad(EncryptRounds(key, w, 8 + 4 * m))
         == Round(g, key.subKeys, 2 * m + 1, Round(g, key.subKeys, 2 * m, AsQuad(w)))
  {
    hide F0, F1, XorRor, RolXor, Ror, Rol, Xor, Plus3, Twice, Computes;
    var y := EncryptRounds(key, w, 8 + 4 * m);
    F0IsSum(key, g, w.x0, w.x1, 8 + 4 * m);
    F1IsSum(key, g, w.x0, w.x1, 9 + 4 * m);
    F0IsSum(key, g, y.x2, y.x3, 10 + 4 * m);
    F1IsSum(key, g, y.x2, y.x3, 11 + 4 * m);
    RotatedXor(w.x2, F0(key, w.x0, w.x1, 8 + 4 * m));
    RotatedXor(w.x3, F1(key, w.x0, w.x1, 9 + 4 * m));
    RotatedXor(w.x0, F0(key, y.x2, y.x3, 10 + 4 * m));
    RotatedXor(w.x1, F1(key, y.x2, y.x3, 11 + 4 * m));
  }

  lemma {:induction false} AllRounds(key: Key, g: word -> word, w: Words, n: nat)
    requires Computes(key, g) && n <= 8
    ensures AsQuad(EncryptAll(key, w, n)) == Rounds(g, key.subKeys, 2 * n, AsQuad(w))
  {
    hide EncryptRounds, Round, Computes;
    if n > 0 {
      AllRounds(key, g, w, n - 1);
      DoubleRound(key, g, EncryptAll(key, w, n - 1), n - 1);
    }
  }

  /** Encryption of a block, with tables that compute g, is the cipher. */
  lemma EncryptIsTwofish(key: Key, g: word -> word, p: Block)
    requires Computes(key, g)
    ensures IsCiphertext(g, key.subKeys, p, Encrypt(key, p))
  {
    hide Computes, EncryptAll, Rounds, Load, Store, Xor, LittleEndian;
    var w := Whiten(key, Load(p), 0);
    var out := Whiten(key, Swap(EncryptAll(key, w, 8)), 4);
    LoadIsLittleEndian(p);
    AllRounds(key, g, w, 8);
    LoadStore(out);
    LoadIsLittleEndian(Store(out));
  }

  /** And decryption finds the plaintext. */
  lemma DecryptIsTwofish(key: Key, g: word -> word, c: Block)
    requires Computes(key, g)
    ensures IsCiphertext(g, key.subKeys, Decrypt(key, c), c)
  {
    hide Encrypt, Decrypt, IsCiphertext, Computes;
    EncryptIsTwofish(key, g, Decrypt(key, c));
    EncryptDecrypt(key, c);
  }

  /** A block has one ciphertext. */
  lemma CiphertextIsUnique(g: word -> word, k: seq<word>, p: Block, c: Block, d: Block)
    requires |k| == 40 && IsCiphertext(g, k, p, c) && IsCiphertext(g, k, p, d)
    ensures c == d
  {
    hide Rounds, Input, Load, Store, LittleEndian, Xor;
    LoadIsLittleEndian(c);
    LoadIsLittleEndian(d);
    StoreLoad(c);
    StoreLoad(d);
  }

  /** In the key state of a user key, block encryption is Twofish: the cipher with the function g of the S-box
      words and with the expanded subkeys. */
  lemma KeyedEncryptionIsTwofish(f: Fixed, userKey: UserKey, key: Key, p: Block)
    requires forall x :: Fe320(key.sBox, x) == F32(f, KEY_LENGTH / 8, x, SBoxWords(userKey))
    requires forall x :: Fe323(key.sBox, x) == F32(f, KEY_LENGTH / 8, Rol(x, 8), SBoxWords(userKey))
    ensures IsCiphertext(x => G(f, KEY_LENGTH / 8, x, SBoxWords(userKey)), key.subKeys, p, Encrypt(key, p))
  {
    hide Fe320, Fe323, F32, G, Rol, SBoxWords, IsCiphertext, Encrypt;
    var g := (x: word) => G(f, KEY_LENGTH / 8, x, SBoxWords(userKey));
    forall x: word ensures Fe320(key.sBox, x) == g(x) && Fe323(key.sBox, x) == g(Rol(x, 8)) {
      F32IsG(f, KEY_LENGTH / 8, x, SBoxWords(userKey));
      F32IsG(f, KEY_LENGTH / 8, Rol(x, 8), SBoxWords(userKey));
    }
    EncryptIsTwofish(key, g, p);
  }

  // ----- the function h of section 4.3.5

  /** Four bytes as a word. */
  function OfBytes(b: seq<octet>): word
    requires |b| == 4
  {
    Digits(b[0], b[1], b[2], b[3])
  }

  /** The byte b permuted by q0 or q1, and the byte l of the list mixed in. */
  function Q(f: Fixed, i: nat, b: octet, l: octet): octet
    requires i < 2
  {
    f.p[i][b as int] ^ l
  }

  /** The product of the MDS matrix and four bytes, as the sum of its columns, which include the last
      permutations. */
  function Matrix(f: Fixed, y0: octet, y1: octet, y2: octet, y3: octet): word {
    f.mds[0][y0 as int] ^ f.mds[1][y1 as int] ^ f.mds[2][y2 as int] ^ f.mds[3][y3 as int]
  }

  /** h for 256-bit keys: each byte of x passes through the permutations in its own order, and the bytes of the
      list l are mixed in from its end. */
  function H(f: Fixed, x: seq<octet>, l: seq<seq<octet>>): word
    requires |x| == 4 && |l| == 4 && forall i :: 0 <= i < 4 ==> |l[i]| == 4
  {
    Matrix(f, Q(f, 0, Q(f, 0, Q(f, 1, Q(f, 1, x[0], l[3][0]), l[2][0]), l[1][0]), l[0][0]),
           Q(f, 0, Q(f, 1, Q(f, 1, Q(f, 0, x[1], l[3][1]), l[2][1]), l[1][1]), l[0][1]),
           Q(f, 1, Q(f, 0, Q(f, 0, Q(f, 0, x[2], l[3][2]), l[2][2]), l[1][2]), l[0][2]),
           Q(f, 1, Q(f, 1, Q(f, 0, Q(f, 1, x[3], l[3][3]), l[2][3]), l[1][3]), l[0][3]))
  }

  lemma BytesOfWord(b: seq<octet>)
    requires |b| == 4
    ensures ByteOf(OfBytes(b), 0) == b[0] && ByteOf(OfBytes(b), 1) == b[1]
    ensures ByteOf(OfBytes(b), 2) == b[2] && ByteOf(OfBytes(b), 3) == b[3]
  {
    hide WordOf, Digits, ByteOf;
    WordOfIsSum(b[0], b[1], b[2], b[3]);
    WordBytes(b[0], b[1], b[2], b[3]);
  }

  lemma ColumnsAddUp(f: Fixed, y0: octet, y1: octet, y2: octet, y3: octet)
    ensures Xor4(Mds(f, 0, y0), Mds(f, 1, y1), Mds(f, 2, y2), Mds(f, 3, y3)) == Matrix(f, y0, y1, y2, y3)
  {
  }

  lemma MixedIsQ(f: Fixed, i: nat, b: octet, k: word, c: nat)
    requires i < 2
    ensures Mixed(f, i, b, k, c) == Q(f, i, b, ByteOf(k, c))
  {
    hide ByteOf;
  }

  /** The four stages of column c, with any permutations. */
  lemma StagesAreQs(f: Fixed, k: seq<word>, c: nat, b: octet, p1: nat, p2: nat, p3: nat, p4: nat)
    requires |k| == 4 && c < 4 && p1 < 2 && p2 < 2 && p3 < 2 && p4 < 2
    ensures Mixed(f, p1, Mixed(f, p2, Mixed(f, p3, Mixed(f, p4, b, k[3], c), k[2], c), k[1], c), k[0], c)
         == Q(f, p1, Q(f, p2, Q(f, p3, Q(f, p4, b, ByteOf(k[3], c)), ByteOf(k[2], c)), ByteOf(k[1], c)),
              ByteOf(k[0], c))
  {
    hide ByteOf, Mixed, Q;
    var y4 := Mixed(f, p4, b, k[3], c);
    var y3 := Mixed(f, p3, y4, k[2], c);
    var y2 := Mixed(f, p2, y3, k[1], c);
    MixedIsQ(f, p4, b, k[3], c);
    MixedIsQ(f, p3, y4, k[2], c);
    MixedIsQ(f, p2, y3, k[1], c);
    MixedIsQ(f, p1, y2, k[0], c);
  }

  /** The direct function for 256-bit keys, with the permutations of its stages in figures. */
  lemma DirectStages(f: Fixed, x: word, k: seq<word>)
    requires |k| == 4
    ensures var b0, b1, b2, b3 := ByteOf(x, 0), ByteOf(x, 1), ByteOf(x, 2), ByteOf(x, 3);
            var y0 := Mixed(f, 0, Mixed(f, 0, Mixed(f, 1, Mixed(f, 1, b0, k[3], 0), k[2], 0), k[1], 0), k[0], 0);
            var y1 := Mixed(f, 0, Mixed(f, 1, Mixed(f, 1, Mixed(f, 0, b1, k[3], 1), k[2], 1), k[1], 1), k[0], 1);
            var y2 := Mixed(f, 1, Mixed(f, 0, Mixed(f, 0, Mixed(f, 0, b2, k[3], 2), k[2], 2), k[1], 2), k[0], 2);
            var y3 := Mixed(f, 1, Mixed(f, 1, Mixed(f, 0, Mixed(f, 1, b3, k[3], 3), k[2], 3), k[1], 3), k[0], 3);
            G(f, KEY_LENGTH / 8, x, k) == Matrix(f, y0, y1, y2, y3)
  {
    hide ByteOf, G, Mixed, Mds, Xor4, Matrix;
    F32IsG(f, KEY_LENGTH / 8, x, k);
    forall y0: octet, y1: octet, y2: octet, y3: octet
      ensures Xor4(Mds(f, 0, y0), Mds(f, 1, y1), Mds(f, 2, y2), Mds(f, 3, y3)) == Matrix(f, y0, y1, y2, y3) {
      ColumnsAddUp(f, y0, y1, y2, y3);
    }
  }

  /** The function g is h. */
  lemma GIsH(f: Fixed, x: seq<octet>, k: seq<word>, l: seq<seq<octet>>)
    requires |x| == 4 && |k| == 4 && |l| == 4
    requires forall i :: 0 <= i < 4 ==> |l[i]| == 4 && k[i] == OfBytes(l[i])
    ensures G(f, KEY_LENGTH / 8, OfBytes(x), k) == H(f, x, l)
  {
    hide ByteOf, OfBytes, G, Mixed, Q, Matrix;
    DirectStages(f, OfBytes(x), k);
    BytesOfWord(x);
    BytesOfWord(l[0]);
    BytesOfWord(l[1]);
    BytesOfWord(l[2]);
    BytesOfWord(l[3]);
    StagesAreQs(f, k, 0, x[0], 0, 0, 1, 1);
    StagesAreQs(f, k, 1, x[1], 0, 1, 1, 0);
    StagesAreQs(f, k, 2, x[2], 1, 0, 0, 0);
    StagesAreQs(f, k, 3, x[3], 1, 1, 0, 1);
  }

  // ----- the subkeys as section 4.3 defines them

  lemma NextRepeated(b: octet)
    requires b < 0xff
    ensures Add(WordOf(b, b, b, b), SK_BUMP) == WordOf(b + 1, b + 1, b + 1, b + 1)
  {
  }

  lemma NextOctet(b: octet)
    requires b < 0xff
    ensures (b + 1) as nat == b as nat + 1
  {
  }

  /** n times rho is the word with n in each of its bytes. */
  lemma {:induction false} RhoIsRepeated(n: nat) returns (b: octet)
    requires n <= 40
    ensures b as nat == n && Rho(n) == Digits(b, b, b, b)
  {
    hide WordOf, Digits, Add;
    b := 0;
    if n > 0 {
      b := RhoIsRepeated(n - 1);
      WordOfIsSum(b, b, b, b);
      SmallOctet(b, n - 1);
      NextRepeated(b);
      NextOctet(b);
      b := b + 1;
      WordOfIsSum(b, b, b, b);
    } else {
      ZeroWord();
    }
  }

  lemma SmallOctet(b: octet, n: nat)
    requires b as nat == n < 0xff
    ensures b < 0xff
  {
  }

  lemma ZeroWord()
    ensures Digits(0, 0, 0, 0) == 0
  {
  }

  lemma AddsUp(a: word, b: word)
    ensures Add(a, b) == a + b && Add(Add(a, b), b) == Plus3(a, b, b)
  {
  }

  /** K_2i = A_i + B_i and K_2i+1 = ROL(A_i + 2 B_i, 9), where A_i is g of 2i rho with the even key words and B_i
      is g of (2i + 1) rho with the odd ones, rotated by a byte. */
  ghost predicate IsSubKeyPair(f: Fixed, cnt: nat, even: seq<word>, odd: seq<word>, i: nat, k0: word, k1: word)
    requires |even| == 4 && |odd| == 4
  {
    exists lo: octet, hi: octet :: lo as nat == 2 * i && hi as nat == 2 * i + 1
      && IsPht(G(f, cnt, Digits(lo, lo, lo, lo), even), Rol(G(f, cnt, Digits(hi, hi, hi, hi), odd), 8), k0, k1)
  }

  predicate IsPht(a: word, b: word, k0: word, k1: word) {
    k0 == a + b && k1 == Rol(Plus3(a, b, b), 9)
  }

  lemma PhtIsPht(a: word, b: word)
    ensures IsPht(a, b, Add(a, b), Rol(Add(Add(a, b), b), 9))
  {
    hide Rol, Add, Plus3;
    AddsUp(a, b);
  }

  /** The expanded subkeys are those of the paper. */
  lemma SubKeysAreTwofish(f: Fixed, cnt: nat, even: seq<word>, odd: seq<word>, sk: seq<word>, i: nat)
    requires |even| == 4 && |odd| == 4 && |sk| == 40 && i < 20 && SubKeyPair(f, cnt, even, odd, sk, i)
    ensures IsSubKeyPair(f, cnt, even, odd, i, sk[2 * i], sk[2 * i + 1])
  {
    hide G, Rol, Digits, IsPht, Rho, Add;
    var lo := RhoIsRepeated(2 * i);
    var hi := RhoIsRepeated(2 * i + 1);
    PhtIsPht(SubKeyA(f, cnt, even, i), SubKeyB(f, cnt, odd, i));
  }
}
