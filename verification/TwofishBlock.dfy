/** The Twofish block cipher (section 4 of the Twofish paper by Schneier et al., 1998) in the
    representation of the C code: key-dependent S-boxes in one table, 40 subkeys. */
module TwofishBlock {
  type octet = bv8
  type word = bv32

  const BLOCK_SIZE := 16
  const ROUNDS := 16

  type Block = b: seq<octet> | |b| == BLOCK_SIZE witness seq(BLOCK_SIZE, _ => 0)

  /** What the key schedule leaves behind: 4 * 256 S-box entries and 40 subkeys. */
  datatype KeyTables = KeyTables(sBox: seq<word>, subKeys: seq<word>)

  type Key = k: KeyTables | |k.sBox| == 0x400 && |k.subKeys| == 40
    witness KeyTables(seq(0x400, _ => 0), seq(40, _ => 0))

  /** TwoFish__b: byte n & 3 of a word, least significant first. */
  function ByteOf(x: word, n: nat): octet {
    if n % 4 == 0 then (x & 0xff) as octet
    else if n % 4 == 1 then ((x >> 8) & 0xff) as octet
    else if n % 4 == 2 then ((x >> 16) & 0xff) as octet
    else ((x >> 24) & 0xff) as octet
  }

  function WordOf(b0: octet, b1: octet, b2: octet, b3: octet): word {
    (b0 as word) | ((b1 as word) << 8) | ((b2 as word) << 16) | ((b3 as word) << 24)
  }

  lemma WordBytes(b0: octet, b1: octet, b2: octet, b3: octet)
    ensures var x := WordOf(b0, b1, b2, b3);
            ByteOf(x, 0) == b0 && ByteOf(x, 1) == b1 && ByteOf(x, 2) == b2 && ByteOf(x, 3) == b3
  {
  }

  lemma BytesWord(x: word)
    ensures WordOf(ByteOf(x, 0), ByteOf(x, 1), ByteOf(x, 2), ByteOf(x, 3)) == x
  {
  }

  function Rol1(x: word): word { (x << 1) | (x >> 31) }

  function Ror1(x: word): word { (x >> 1) | (x << 31) }

  function XorRor(x: word, f: word): word { Ror1(x ^ f) }

  function RolXor(x: word, f: word): word { Rol1(x) ^ f }

  function Xor(x: word, f: word): word { x ^ f }

  function Xor4(a: word, b: word, c: word, d: word): word { a ^ b ^ c ^ d }

  function Fe320(sBox: seq<word>, x: word): word
    requires |sBox| == 0x400
  {
    Xor4(sBox[2 * ByteOf(x, 0) as int],
         sBox[2 * ByteOf(x, 1) as int + 1],
         sBox[0x200 + 2 * ByteOf(x, 2) as int],
         sBox[0x200 + 2 * ByteOf(x, 3) as int + 1])
  }

  function Fe323(sBox: seq<word>, x: word): word
    requires |sBox| == 0x400
  {
    Xor4(sBox[2 * ByteOf(x, 3) as int],
         sBox[2 * ByteOf(x, 0) as int + 1],
         sBox[0x200 + 2 * ByteOf(x, 1) as int],
         sBox[0x200 + 2 * ByteOf(x, 2) as int + 1])
  }

  datatype Words = Words(x0: word, x1: word, x2: word, x3: word)

  function Sum(a: word, b: word, c: word): word { a + b + c }

  function Shl1(x: word): word { x << 1 }

  /** The two halves of F for the words a and b: t0 + t1 + k and t0 + 2 t1 + k. */
  function F0(key: Key, a: word, b: word, k: nat): word
    requires k < 40
  {
    Sum(Fe320(key.sBox, a), Fe323(key.sBox, b), key.subKeys[k])
  }

  function F1(key: Key, a: word, b: word, k: nat): word
    requires k < 40
  {
    Sum(Fe320(key.sBox, a), Shl1(Fe323(key.sBox, b)), key.subKeys[k])
  }

  /** Two rounds of the Feistel network, with the subkeys k to k + 3. */
  function EncryptRounds(key: Key, w: Words, k: nat): Words
    requires k + 4 <= 40
  {
    var y2 := XorRor(w.x2, F0(key, w.x0, w.x1, k));
    var y3 := RolXor(w.x3, F1(key, w.x0, w.x1, k + 1));
    var y0 := XorRor(w.x0, F0(key, y2, y3, k + 2));
    var y1 := RolXor(w.x1, F1(key, y2, y3, k + 3));
    Words(y0, y1, y2, y3)
  }

  /** Two rounds of decryption, with the subkeys k down to k - 3. */
  function DecryptRounds(key: Key, w: Words, k: nat): Words
    requires 3 <= k < 40
  {
    var y3 := XorRor(w.x3, F1(key, w.x0, w.x1, k));
    var y2 := RolXor(w.x2, F0(key, w.x0, w.x1, k - 1));
    var y1 := XorRor(w.x1, F1(key, y2, y3, k - 2));
    var y0 := RolXor(w.x0, F0(key, y2, y3, k - 3));
    Words(y0, y1, y2, y3)
  }

  function Swap(w: Words): Words { Words(w.x2, w.x3, w.x0, w.x1) }

  /** n double rounds upwards from subkey 8, or downwards from subkey 39. */
  function EncryptAll(key: Key, w: Words, n: nat): Words
    requires n <= 8
  {
    if n == 0 then w else EncryptRounds(key, EncryptAll(key, w, n - 1), 8 + 4 * (n - 1))
  }

  function DecryptAll(key: Key, w: Words, n: nat): Words
    requires n <= 8
  {
    if n == 0 then w else DecryptRounds(key, DecryptAll(key, w, n - 1), 39 - 4 * (n - 1))
  }

  function Whiten(key: Key, w: Words, k: nat): Words
    requires k + 4 <= 40
  {
    Words(Xor(w.x0, key.subKeys[k]), Xor(w.x1, key.subKeys[k + 1]),
          Xor(w.x2, key.subKeys[k + 2]), Xor(w.x3, key.subKeys[k + 3]))
  }

  function Load(b: Block): Words {
    Words(WordOf(b[0], b[1], b[2], b[3]), WordOf(b[4], b[5], b[6], b[7]),
          WordOf(b[8], b[9], b[10], b[11]), WordOf(b[12], b[13], b[14], b[15]))
  }

  function Bytes(x: word): seq<octet> {
    [ByteOf(x, 0), ByteOf(x, 1), ByteOf(x, 2), ByteOf(x, 3)]
  }

  function Store(w: Words): Block {
    Bytes(w.x0) + Bytes(w.x1) + Bytes(w.x2) + Bytes(w.x3)
  }

  function Encrypt(key: Key, b: Block): Block {
    Store(Whiten(key, Swap(EncryptAll(key, Whiten(key, Load(b), 0), 8)), 4))
  }

  function Decrypt(key: Key, b: Block): Block {
    Store(Whiten(key, Swap(DecryptAll(key, Whiten(key, Load(b), 4), 8)), 0))
  }

  // ----- decryption inverts encryption

  lemma UnRor(x: word, f: word)
    ensures RolXor(XorRor(x, f), f) == x
  {
  }

  lemma UnRol(x: word, f: word)
    ensures XorRor(RolXor(x, f), f) == x
  {
  }

  lemma XorTwice(x: word, f: word)
    ensures Xor(Xor(x, f), f) == x
  {
  }

  lemma DecryptUndoesRounds(key: Key, w: Words, k: nat)
    requires k + 4 <= 40
    ensures DecryptRounds(key, Swap(EncryptRounds(key, w, k)), k + 3) == Swap(w)
  {
    hide F0, F1, RolXor, XorRor;
    var y := EncryptRounds(key, w, k);
    UnRor(w.x2, F0(key, w.x0, w.x1, k));
    UnRol(w.x3, F1(key, w.x0, w.x1, k + 1));
    UnRor(w.x0, F0(key, y.x2, y.x3, k + 2));
    UnRol(w.x1, F1(key, y.x2, y.x3, k + 3));
  }

  lemma EncryptUndoesRounds(key: Key, w: Words, k: nat)
    requires k + 4 <= 40
    ensures EncryptRounds(key, Swap(DecryptRounds(key, w, k + 3)), k) == Swap(w)
  {
    hide F0, F1, RolXor, XorRor;
    var z := DecryptRounds(key, w, k + 3);
    UnRol(w.x2, F0(key, w.x0, w.x1, k + 2));
    UnRor(w.x3, F1(key, w.x0, w.x1, k + 3));
    UnRol(w.x0, F0(key, z.x2, z.x3, k));
    UnRor(w.x1, F1(key, z.x2, z.x3, k + 1));
  }

  /** Taking back the last n of 8 double rounds. */
  lemma {:induction false} DecryptAllUndoes(key: Key, w: Words, n: nat)
    requires n <= 8
    ensures DecryptAll(key, Swap(EncryptAll(key, w, 8)), n) == Swap(EncryptAll(key, w, 8 - n))
  {
    hide EncryptRounds, DecryptRounds;
    if n > 0 {
      DecryptAllUndoes(key, w, n - 1);
      DecryptUndoesRounds(key, EncryptAll(key, w, 8 - n), 8 + 4 * (8 - n));
    }
  }

  lemma {:induction false} EncryptAllUndoes(key: Key, w: Words, n: nat)
    requires n <= 8
    ensures EncryptAll(key, Swap(DecryptAll(key, w, 8)), n) == Swap(DecryptAll(key, w, 8 - n))
  {
    hide EncryptRounds, DecryptRounds;
    if n > 0 {
      EncryptAllUndoes(key, w, n - 1);
      EncryptUndoesRounds(key, DecryptAll(key, w, 8 - n), 8 + 4 * (n - 1));
    }
  }

  lemma WhitenTwice(key: Key, w: Words, k: nat)
    requires k + 4 <= 40
    ensures Whiten(key, Whiten(key, w, k), k) == w
  {
    hide Xor;
    XorTwice(w.x0, key.subKeys[k]);
    XorTwice(w.x1, key.subKeys[k + 1]);
    XorTwice(w.x2, key.subKeys[k + 2]);
    XorTwice(w.x3, key.subKeys[k + 3]);
  }

  lemma LoadStore(w: Words)
    ensures Load(Store(w)) == w
  {
    hide ByteOf, WordOf;
    BytesWord(w.x0);
    BytesWord(w.x1);
    BytesWord(w.x2);
    BytesWord(w.x3);
  }

  lemma StoreLoad(b: Block)
    ensures Store(Load(b)) == b
  {
    hide ByteOf, WordOf;
    WordBytes(b[0], b[1], b[2], b[3]);
    WordBytes(b[4], b[5], b[6], b[7]);
    WordBytes(b[8], b[9], b[10], b[11]);
    WordBytes(b[12], b[13], b[14], b[15]);
  }

  /** For all S-box and subkey contents, decryption takes back encryption. */
  lemma DecryptEncrypt(key: Key, b: Block)
    ensures Decrypt(key, Encrypt(key, b)) == b
  {
    hide Store, Load, Whiten, EncryptAll, DecryptAll;
    var w := Whiten(key, Load(b), 0);
    var y := Swap(EncryptAll(key, w, 8));
    LoadStore(Whiten(key, y, 4));
    WhitenTwice(key, y, 4);
    DecryptAllUndoes(key, w, 8);
    NoRounds(key, w);
    WhitenTwice(key, Load(b), 0);
    StoreLoad(b);
  }

  /** And the other way round: each is a permutation of the blocks. */
  lemma EncryptDecrypt(key: Key, b: Block)
    ensures Encrypt(key, Decrypt(key, b)) == b
  {
    hide Store, Load, Whiten, EncryptAll, DecryptAll;
    var w := Whiten(key, Load(b), 4);
    var y := Swap(DecryptAll(key, w, 8));
    LoadStore(Whiten(key, y, 0));
    WhitenTwice(key, y, 0);
    EncryptAllUndoes(key, w, 8);
    NoRounds(key, w);
    WhitenTwice(key, Load(b), 4);
    StoreLoad(b);
  }

  lemma NoRounds(key: Key, w: Words)
    ensures EncryptAll(key, w, 0) == w && DecryptAll(key, w, 0) == w
  {
  }

  // ----- the code as it runs

  /** _TwoFish_BlockCrypt16: the subkey index runs from 8 up to 39, or from 39 down to 8. */
  method BlockCrypt16(key: Key, inp: Block, decrypt: bool) returns (out: Block)
    ensures out == if decrypt then Decrypt(key, inp) else Encrypt(key, inp)
  {
    hide EncryptRounds, DecryptRounds, Store, Whiten, Load, Swap;
    var x := Load(inp);
    var k: int, r: nat;
    if decrypt {
      x := Whiten(key, x, 4);
      ghost var w := x;
      k, r := 7 + ROUNDS * 2, 0;
      while r < ROUNDS
        invariant r % 2 == 0 && r <= ROUNDS && k == 39 - 2 * r
        invariant x == DecryptAll(key, w, r / 2)
      {
        x := DecryptRounds(key, x, k);
        k, r := k - 4, r + 2;
      }
      x := Whiten(key, Swap(x), 0);
    } else {
      x := Whiten(key, x, 0);
      ghost var w := x;
      k, r := 8, 0;
      while r < ROUNDS
        invariant r % 2 == 0 && r <= ROUNDS && k == 8 + 2 * r
        invariant x == EncryptAll(key, w, r / 2)
      {
        x := EncryptRounds(key, x, k);
        k, r := k + 4, r + 2;
      }
      x := Whiten(key, Swap(x), 4);
    }
    out := Store(x);
  }
}
