/** Cipher block chaining with a zero start value, and ciphertext stealing ("Applied Cryptography",
    page 196) for texts that do not fill their last block. */
module TwofishCbc {
  import opened TwofishBlock

  const ZERO_BLOCK: Block := [0, 0, 0, 0, 0, 0, 0, 0, 0, 0, 0, 0, 0, 0, 0, 0]

  function XorBlock(a: Block, b: Block): Block {
    seq(BLOCK_SIZE, i requires 0 <= i < BLOCK_SIZE => a[i] ^ b[i])
  }

  lemma XorBlockTwice(a: Block, b: Block)
    ensures XorBlock(XorBlock(a, b), b) == a
  {
    forall i | 0 <= i < BLOCK_SIZE ensures XorBlock(XorBlock(a, b), b)[i] == a[i] {
      XorOctetTwice(a[i], b[i]);
    }
  }

  lemma XorZeroBlock(a: Block)
    ensures XorBlock(a, ZERO_BLOCK) == a
  {
    hide XorBlock;
    XorZeros(a, ZERO_BLOCK);
  }

  lemma XorZeros(a: Block, z: Block)
    requires forall i :: 0 <= i < BLOCK_SIZE ==> z[i] == 0
    ensures XorBlock(a, z) == a
  {
    forall i | 0 <= i < BLOCK_SIZE ensures XorBlock(a, z)[i] == a[i] {
      XorZeroOctet(a[i]);
    }
  }

  lemma XorOctetTwice(x: octet, y: octet)
    ensures (x ^ y) ^ y == x
  {
  }

  lemma XorZeroOctet(x: octet)
    ensures 0 ^ x == x && x ^ 0 == x
  {
  }

  predicate Whole(s: seq<octet>) {
    |s| % BLOCK_SIZE == 0
  }

  /** The last block, or the start value in front of the first. */
  function LastBlock(s: seq<octet>): Block
    requires Whole(s)
  {
    if s == [] then ZERO_BLOCK else s[|s| - BLOCK_SIZE..]
  }

  function Front(s: seq<octet>): (r: seq<octet>)
    requires Whole(s) && s != []
    ensures Whole(r) && |r| + BLOCK_SIZE == |s|
  {
    s[..|s| - BLOCK_SIZE]
  }

  /** Each block is xored with the ciphertext before it and encrypted. */
  function CbcEncrypt(key: Key, p: seq<octet>): (c: seq<octet>)
    requires Whole(p)
    ensures |c| == |p| && Whole(c)
    decreases |p|
  {
    if p == [] then []
    else
      var c := CbcEncrypt(key, Front(p));
      c + Encrypt(key, XorBlock(LastBlock(p), LastBlock(c)))
  }

  function CbcDecrypt(key: Key, c: seq<octet>): (p: seq<octet>)
    requires Whole(c)
    ensures |p| == |c| && Whole(p)
    decreases |c|
  {
    if c == [] then []
    else CbcDecrypt(key, Front(c)) + XorBlock(Decrypt(key, LastBlock(c)), LastBlock(Front(c)))
  }

  lemma {:induction false} CbcRoundTrip(key: Key, p: seq<octet>)
    requires Whole(p)
    ensures CbcDecrypt(key, CbcEncrypt(key, p)) == p
    decreases |p|
  {
    hide Encrypt, Decrypt, XorBlock;
    if p != [] {
      var front := CbcEncrypt(key, Front(p));
      var c := CbcEncrypt(key, p);
      assert Front(c) == front && LastBlock(c) == Encrypt(key, XorBlock(LastBlock(p), LastBlock(front)));
      DecryptEncrypt(key, XorBlock(LastBlock(p), LastBlock(front)));
      XorBlockTwice(LastBlock(p), LastBlock(front));
      CbcRoundTrip(key, Front(p));
      assert Front(p) + LastBlock(p) == p;
    }
  }

  function Zeros(n: nat): (z: seq<octet>)
    ensures |z| == n && forall i :: 0 <= i < n ==> z[i] == 0
  {
    seq(n, _ => 0)
  }

  /** The text filled up with zeros to whole blocks. */
  function Padded(p: seq<octet>): (r: seq<octet>)
    ensures Whole(r) && |p| <= |r| < |p| + BLOCK_SIZE && r[..|p|] == p
    ensures |r| == if Whole(p) then |p| else |p| - |p| % BLOCK_SIZE + BLOCK_SIZE
    ensures Whole(p) ==> r == p
  {
    p + Zeros((BLOCK_SIZE - |p| % BLOCK_SIZE) % BLOCK_SIZE)
  }

  /** Stealing: a text that does not fill its last block is padded and chained; then the last two
      ciphertext blocks change places and the text is cut to its original length. */
  function CtsEncrypt(key: Key, p: seq<octet>): (c: seq<octet>)
    requires BLOCK_SIZE <= |p|
    ensures |c| == |p|
  {
    assert |p| - |p| % BLOCK_SIZE >= BLOCK_SIZE;
    var c := CbcEncrypt(key, Padded(p));
    if Whole(p) then c else SwapLast(c)[..|p|]
  }

  function SwapLast(c: seq<octet>): (r: seq<octet>)
    requires Whole(c) && 2 * BLOCK_SIZE <= |c|
    ensures |r| == |c|
  {
    var m := |c|;
    c[..m - 32] + c[m - 16..] + c[m - 32..m - 16]
  }

  /** The chained ciphertext a stolen one came from: what was cut off is part of the decryption of the
      last whole block. */
  function Unstolen(key: Key, c: seq<octet>): (r: seq<octet>)
    requires BLOCK_SIZE < |c| && !Whole(c)
    ensures Whole(r) && |c| < |r| < |c| + BLOCK_SIZE
  {
    var r := |c| % BLOCK_SIZE;
    var m := |c| - r;
    var last: Block := c[m - 16..m];
    c[..m - 16] + (c[m..] + Decrypt(key, last)[r..]) + last
  }

  function CtsDecrypt(key: Key, c: seq<octet>): (p: seq<octet>)
    requires BLOCK_SIZE <= |c|
    ensures |p| == |c|
  {
    if Whole(c) then CbcDecrypt(key, c) else CbcDecrypt(key, Unstolen(key, c))[..|c|]
  }

  /** The parts of a stolen ciphertext. */
  lemma SwapLastParts(c: seq<octet>, r: nat)
    requires Whole(c) && 2 * BLOCK_SIZE <= |c| && r < BLOCK_SIZE
    ensures var m := |c|; var s := SwapLast(c)[..m - 16 + r];
            s[..m - 32] == c[..m - 32] && s[m - 32..m - 16] == c[m - 16..] && s[m - 16..] == c[m - 32..m - 32 + r]
  {
    var m, t := |c|, SwapLast(c);
    var s := t[..m - 16 + r];
    assert t[..m - 32] == c[..m - 32] && t[m - 32..m - 16] == c[m - 16..] && t[m - 16..] == c[m - 32..m - 16];
    assert s[..m - 32] == t[..m - 32] && s[m - 32..m - 16] == t[m - 32..m - 16] && s[m - 16..] == t[m - 16..][..r];
  }

  lemma CbcEnd(key: Key, q: seq<octet>)
    requires Whole(q) && 2 * BLOCK_SIZE <= |q|
    ensures var c, m := CbcEncrypt(key, q), |q|;
            c[m - 16..] == Encrypt(key, XorBlock(LastBlock(q), c[m - 32..m - 16]))
  {
    hide Encrypt, XorBlock;
    var front := CbcEncrypt(key, Front(q));
    assert CbcEncrypt(key, q) == front + Encrypt(key, XorBlock(LastBlock(q), LastBlock(front)));
  }

  /** What was cut off can be recovered. */
  lemma UnstolenRestores(key: Key, p: seq<octet>)
    requires BLOCK_SIZE < |p| && !Whole(p)
    ensures Unstolen(key, CtsEncrypt(key, p)) == CbcEncrypt(key, Padded(p))
  {
    hide Encrypt, Decrypt, XorBlock, SwapLast, CbcEncrypt, Padded, Unstolen, CtsEncrypt, Whole;
    CtsEncryptCut(key, p);
    var q, r, s := Padded(p), |p| % BLOCK_SIZE, CtsEncrypt(key, p);
    var c := CbcEncrypt(key, q);
    var m := |c|;
    var prev: Block := c[m - 32..m - 16];
    CbcEnd(key, q);
    SwapLastParts(c, r);
    DecryptEncrypt(key, XorBlock(LastBlock(q), prev));
    StolenPart(p, prev);
    UnstolenIs(key, s, m, r);
    Reassembled(c, prev, r);
  }

  lemma CtsEncryptCut(key: Key, p: seq<octet>)
    requires BLOCK_SIZE < |p| && !Whole(p)
    ensures var q, r := Padded(p), |p| % BLOCK_SIZE;
            && Whole(q) && 2 * BLOCK_SIZE <= |q| && |q| % BLOCK_SIZE == 0 && 0 < r && |p| == |q| - 16 + r
            && CtsEncrypt(key, p) == SwapLast(CbcEncrypt(key, q))[..|q| - 16 + r]
  {
    hide CbcEncrypt, SwapLast;
  }

  lemma UnstolenIs(key: Key, s: seq<octet>, m: nat, r: nat)
    requires 0 < r < BLOCK_SIZE && m % BLOCK_SIZE == 0 && 2 * BLOCK_SIZE <= m && |s| == m - 16 + r
    ensures Unstolen(key, s) == s[..m - 32] + (s[m - 16..] + Decrypt(key, s[m - 32..m - 16])[r..]) + s[m - 32..m - 16]
  {
    hide Decrypt;
    assert |s| - |s| % BLOCK_SIZE == m - 16 && |s| % BLOCK_SIZE == r;
  }

  lemma Reassembled(c: seq<octet>, prev: Block, r: nat)
    requires 2 * BLOCK_SIZE <= |c| && r < BLOCK_SIZE && prev == c[|c| - 32..|c| - 16]
    ensures var m := |c|; c[..m - 32] + (c[m - 32..m - 32 + r] + prev[r..]) + c[m - 16..] == c
  {
    var m := |c|;
    assert c[m - 32..m - 32 + r] + prev[r..] == prev;
    assert c[..m - 32] + prev + c[m - 16..] == c;
  }

  /** Behind the text the padding is zero, so the xor leaves the previous ciphertext. */
  lemma StolenPart(p: seq<octet>, prev: Block)
    requires BLOCK_SIZE < |p| && !Whole(p)
    ensures XorBlock(LastBlock(Padded(p)), prev)[|p| % BLOCK_SIZE..] == prev[|p| % BLOCK_SIZE..]
  {
    var r, x := |p| % BLOCK_SIZE, XorBlock(LastBlock(Padded(p)), prev);
    forall i | r <= i < BLOCK_SIZE ensures x[i] == prev[i] {
      assert LastBlock(Padded(p))[i] == 0;
      XorZeroOctet(prev[i]);
    }
  }

  /** Decryption takes back encryption for every text of more than one block, whole or not. */
  lemma CtsRoundTrip(key: Key, p: seq<octet>)
    requires BLOCK_SIZE < |p|
    ensures CtsDecrypt(key, CtsEncrypt(key, p)) == p
  {
    hide CbcEncrypt, CbcDecrypt, Unstolen;
    CbcRoundTrip(key, Padded(p));
    if !Whole(p) {
      UnstolenRestores(key, p);
    }
  }

  /** _TwoFish_CryptRaw: texts of up to one block are padded and processed as a single block. */
  function RawEncrypt(key: Key, p: seq<octet>): seq<octet> {
    if p == [] then [] else if |p| > BLOCK_SIZE then CtsEncrypt(key, p) else Encrypt(key, Padded(p))
  }

  function RawDecrypt(key: Key, c: seq<octet>): seq<octet> {
    if c == [] then [] else if |c| > BLOCK_SIZE then CtsDecrypt(key, c) else Decrypt(key, Padded(c))
  }

  /** The text comes back, up to 16 bytes filled up with zeros; so the exact text comes back if and only
      if it is empty or has at least 16 bytes. */
  lemma RawRoundTrip(key: Key, p: seq<octet>)
    ensures |p| > BLOCK_SIZE ==> |RawEncrypt(key, p)| == |p|
    ensures RawDecrypt(key, RawEncrypt(key, p)) == if |p| > BLOCK_SIZE then p else Padded(p)
    ensures RawDecrypt(key, RawEncrypt(key, p)) == p <==> p == [] || BLOCK_SIZE <= |p|
  {
    hide CtsEncrypt, CtsDecrypt, Encrypt, Decrypt;
    if |p| > BLOCK_SIZE {
      CtsRoundTrip(key, p);
    } else if p != [] {
      DecryptEncrypt(key, Padded(p));
    }
  }

  /** The shortest text is not restored: it comes back with fifteen zeros behind it. */
  lemma OneByteIsNotRestored(key: Key, b: octet)
    ensures RawDecrypt(key, RawEncrypt(key, [b])) == [b] + Zeros(15) != [b]
  {
    hide Encrypt, Decrypt, RawEncrypt, RawDecrypt;
    RawRoundTrip(key, [b]);
  }

  // ----- the last, partial block, as the code treats it

  function FillBlock(x: seq<octet>): (r: Block)
    requires |x| < BLOCK_SIZE
  {
    x + Zeros(BLOCK_SIZE - |x|)
  }

  lemma CbcAppend(key: Key, s: seq<octet>, b: Block)
    requires Whole(s)
    ensures Whole(s + b)
    ensures CbcEncrypt(key, s + b) == CbcEncrypt(key, s) + Encrypt(key, XorBlock(b, LastBlock(CbcEncrypt(key, s))))
    ensures CbcDecrypt(key, s + b) == CbcDecrypt(key, s) + XorBlock(Decrypt(key, b), LastBlock(s))
  {
    hide Encrypt, Decrypt, XorBlock;
    assert Front(s + b) == s && LastBlock(s + b) == b;
  }

  /** The ciphertext c, with its last block moved behind e and cut to r bytes. */
  function Stolen(c: seq<octet>, e: Block, r: nat): seq<octet>
    requires Whole(c) && c != [] && r <= BLOCK_SIZE
  {
    Front(c) + e + LastBlock(c)[..r]
  }

  /** Encrypting a partial block x behind whole blocks s: the last ciphertext block so far moves behind
      the new one and is cut. */
  lemma StealOnEncrypt(key: Key, s: seq<octet>, x: seq<octet>)
    requires Whole(s) && s != [] && 0 < |x| < BLOCK_SIZE
    ensures var c := CbcEncrypt(key, s);
            CtsEncrypt(key, s + x) == Stolen(c, Encrypt(key, XorBlock(FillBlock(x), LastBlock(c))), |x|)
  {
    hide Encrypt, XorBlock, CbcEncrypt, SwapLast, Padded, CtsEncrypt, FillBlock, Stolen, LastBlock, Whole;
    WholeSize(s);
    var c := CbcEncrypt(key, s);
    var e := Encrypt(key, XorBlock(FillBlock(x), LastBlock(c)));
    PaddedAppend(s, x);
    CbcAppend(key, s, FillBlock(x));
    CtsEncryptPartial(key, s + x, c + e);
    SwapAppended(c, e);
    CutStolen(c, e, |x|, SwapLast(c + e), |s + x|);
  }

  lemma WholeSize(s: seq<octet>)
    requires Whole(s) && s != []
    ensures BLOCK_SIZE <= |s|
  {
  }

  lemma CutStolen(c: seq<octet>, e: Block, r: nat, swapped: seq<octet>, n: nat)
    requires Whole(c) && c != [] && r <= BLOCK_SIZE && n == |c| + r
    requires swapped == Front(c) + e + LastBlock(c)
    ensures n <= |swapped| && swapped[..n] == Stolen(c, e, r)
  {
    CutAppended(Front(c) + e, LastBlock(c), r);
  }

  lemma SwapAppended(c: seq<octet>, e: Block)
    requires Whole(c) && c != []
    ensures Whole(c + e) && SwapLast(c + e) == Front(c) + e + LastBlock(c)
  {
  }

  lemma CutAppended(a: seq<octet>, b: seq<octet>, n: nat)
    requires n <= |b|
    ensures (a + b)[..|a| + n] == a + b[..n]
  {
  }

  lemma CtsEncryptPartial(key: Key, p: seq<octet>, c: seq<octet>)
    requires BLOCK_SIZE < |p| && !Whole(p)
    requires c == CbcEncrypt(key, Padded(p))
    ensures |p| <= |c| && Whole(c) && 2 * BLOCK_SIZE <= |c|
    ensures CtsEncrypt(key, p) == SwapLast(c)[..|p|]
  {
  }

  lemma CtsDecryptPartial(key: Key, c: seq<octet>, u: seq<octet>)
    requires BLOCK_SIZE < |c| && !Whole(c)
    requires u == Unstolen(key, c)
    ensures |c| <= |u| && Whole(u) && CtsDecrypt(key, c) == CbcDecrypt(key, u)[..|c|]
  {
  }

  lemma PaddedAppend(s: seq<octet>, x: seq<octet>)
    requires Whole(s) && 0 < |x| < BLOCK_SIZE
    ensures !Whole(s + x) && Padded(s + x) == s + FillBlock(x)
  {
  }

  /** The ciphertext block that a partial block x and the decryption d of the block before it restore. */
  function RestoredBlock(x: seq<octet>, d: Block): Block
    requires |x| < BLOCK_SIZE
  {
    x + d[|x|..]
  }

  /** What a partial block x decrypts to behind whole blocks s: the last block is chained anew from the
      restored ciphertext, and the end of the text follows. */
  function Unsteal(key: Key, s: seq<octet>, x: seq<octet>): seq<octet>
    requires Whole(s) && s != [] && |x| < BLOCK_SIZE
  {
    var d := Decrypt(key, LastBlock(s));
    var cn := RestoredBlock(x, d);
    CbcDecrypt(key, Front(s)) + XorBlock(Decrypt(key, cn), LastBlock(Front(s))) + XorBlock(d, cn)[..|x|]
  }

  lemma StealOnDecrypt(key: Key, s: seq<octet>, x: seq<octet>)
    requires Whole(s) && s != [] && 0 < |x| < BLOCK_SIZE
    ensures CtsDecrypt(key, s + x) == Unsteal(key, s, x)
  {
    hide Decrypt, XorBlock, CbcDecrypt, Unstolen, RestoredBlock, CtsDecrypt, LastBlock, Front, Whole, Unsteal;
    WholeSize(s);
    var front, last := Front(s), LastBlock(s);
    var d := Decrypt(key, last);
    var cn := RestoredBlock(x, d);
    UnstolenParts(key, s, x);
    LastOfAppended(front, cn);
    CbcAppend(key, front, cn);
    CbcAppend(key, front + cn, last);
    CtsDecryptPartial(key, s + x, front + cn + last);
    CutUnsteal(key, s, x, CbcDecrypt(key, front + cn + last), |s + x|);
  }

  lemma CutUnsteal(key: Key, s: seq<octet>, x: seq<octet>, plain: seq<octet>, n: nat)
    requires Whole(s) && s != [] && |x| < BLOCK_SIZE && n == |s| + |x|
    requires var d := Decrypt(key, LastBlock(s));
             var cn := RestoredBlock(x, d);
             plain == CbcDecrypt(key, Front(s)) + XorBlock(Decrypt(key, cn), LastBlock(Front(s))) + XorBlock(d, cn)
    ensures n <= |plain| && plain[..n] == Unsteal(key, s, x)
  {
    hide Decrypt, XorBlock, CbcDecrypt, RestoredBlock, LastBlock;
    var d := Decrypt(key, LastBlock(s));
    var cn := RestoredBlock(x, d);
    CutAppended(CbcDecrypt(key, Front(s)) + XorBlock(Decrypt(key, cn), LastBlock(Front(s))), XorBlock(d, cn), |x|);
  }

  lemma LastOfAppended(s: seq<octet>, b: Block)
    requires Whole(s)
    ensures Whole(s + b) && LastBlock(s + b) == b
  {
  }

  lemma UnstolenParts(key: Key, s: seq<octet>, x: seq<octet>)
    requires Whole(s) && s != [] && 0 < |x| < BLOCK_SIZE
    ensures !Whole(s + x)
    ensures Unstolen(key, s + x) == Front(s) + RestoredBlock(x, Decrypt(key, LastBlock(s))) + LastBlock(s)
  {
    hide Decrypt;
    var c := s + x;
    assert c[|s| - 16..|s|] == LastBlock(s) && c[|s|..] == x && c[..|s| - 16] == Front(s);
  }

  lemma XorOctetCommutes(x: octet, y: octet)
    ensures x ^ y == y ^ x
  {
  }

  // ----- every ciphertext is the ciphertext of its plaintext

  lemma {:induction false} CbcOnto(key: Key, c: seq<octet>)
    requires Whole(c)
    ensures CbcEncrypt(key, CbcDecrypt(key, c)) == c
    decreases |c|
  {
    hide Encrypt, Decrypt, XorBlock;
    if c != [] {
      var front, last := Front(c), LastBlock(c);
      var d := Decrypt(key, last);
      assert front + last == c;
      CbcOnto(key, front);
      CbcAppend(key, front, last);
      CbcAppend(key, CbcDecrypt(key, front), XorBlock(d, LastBlock(front)));
      XorBlockTwice(d, LastBlock(front));
      EncryptDecrypt(key, last);
    }
  }

  /** The padding that decryption recovers is zero. */
  lemma RecoveredPadding(x: seq<octet>, d: Block)
    requires 0 < |x| < BLOCK_SIZE
    ensures FillBlock(XorBlock(d, RestoredBlock(x, d))[..|x|]) == XorBlock(d, RestoredBlock(x, d))
  {
    var y := XorBlock(d, RestoredBlock(x, d));
    forall i | |x| <= i < BLOCK_SIZE ensures y[i] == 0 {
      XorSelf(d[i]);
    }
    assert y[|x|..] == Zeros(BLOCK_SIZE - |x|);
    assert y == y[..|x|] + y[|x|..];
  }

  lemma XorSelf(x: octet)
    ensures x ^ x == 0
  {
  }

  /** A ciphertext s + x with a partial last block x is what its plaintext encrypts to. */
  lemma PartialOnto(key: Key, s: seq<octet>, x: seq<octet>)
    requires Whole(s) && s != [] && 0 < |x| < BLOCK_SIZE
    ensures CtsEncrypt(key, CtsDecrypt(key, s + x)) == s + x
  {
    hide Encrypt, Decrypt, XorBlock, CbcEncrypt, CbcDecrypt, CtsEncrypt, CtsDecrypt, FillBlock;
    var front, last := Front(s), LastBlock(s);
    var d := Decrypt(key, last);
    var cn := RestoredBlock(x, d);
    var q, y := CbcDecrypt(key, front + cn), XorBlock(d, cn)[..|x|];
    StealOnDecrypt(key, s, x);
    CbcAppend(key, front, cn);
    assert CtsDecrypt(key, s + x) == q + y;
    CbcOnto(key, front + cn);
    StealOnEncrypt(key, q, y);
    RecoveredPadding(x, d);
    XorBlockTwice(d, cn);
    EncryptDecrypt(key, last);
    assert Front(front + cn) == front && LastBlock(front + cn) == cn && cn[..|x|] == x;
    assert front + last == s;
  }

  /** Encryption takes back decryption too, so stealing is a permutation of the texts of each length. */
  lemma CtsOnto(key: Key, c: seq<octet>)
    requires BLOCK_SIZE < |c|
    ensures CtsEncrypt(key, CtsDecrypt(key, c)) == c
  {
    hide CbcEncrypt, CbcDecrypt;
    if Whole(c) {
      CbcOnto(key, c);
    } else {
      hide CtsEncrypt, CtsDecrypt;
      var m := |c| - |c| % BLOCK_SIZE;
      assert c[..m] + c[m..] == c && Whole(c[..m]);
      PartialOnto(key, c[..m], c[m..]);
    }
  }

  /** A raw ciphertext is what its plaintext encrypts to if and only if it is empty or has at least one
      block. */
  lemma RawOnto(key: Key, c: seq<octet>)
    ensures RawEncrypt(key, RawDecrypt(key, c)) == c <==> c == [] || BLOCK_SIZE <= |c|
  {
    hide CtsEncrypt, CtsDecrypt, Encrypt, Decrypt;
    if |c| > BLOCK_SIZE {
      CtsOnto(key, c);
    } else if c != [] {
      EncryptDecrypt(key, Padded(c));
    }
  }

  // ----- chaining and stealing, block by block

  function BlockAt(s: seq<octet>, i: nat): Block
    requires 16 * i + 16 <= |s|
  {
    s[16 * i..16 * i + 16]
  }

  lemma XorBlockAt(a: Block, b: Block, i: nat)
    requires i < 16
    ensures XorBlock(a, b)[i] == a[i] ^ b[i]
  {
  }

  /** Block i of the ciphertext is the encryption of block i of the text, xored with the ciphertext block before
      it, or with zeros. */
  lemma {:induction false} CbcByBlocks(key: Key, p: seq<octet>, i: nat)
    requires Whole(p) && 16 * i + 16 <= |p|
    ensures var c := CbcEncrypt(key, p);
            var before: Block := if i == 0 then Zeros(16) else BlockAt(c, i - 1);
            BlockAt(c, i) == Encrypt(key, XorBlock(BlockAt(p, i), before))
    decreases |p|
  {
    hide Encrypt, XorBlock, BlockAt;
    var front := CbcEncrypt(key, Front(p));
    var c := CbcEncrypt(key, p);
    if 16 * i + 16 == |p| {
      LastIsBlock(key, p, i);
    } else {
      CbcByBlocks(key, Front(p), i);
      EarlierBlocks(key, p, i);
    }
  }

  lemma LastIsBlock(key: Key, p: seq<octet>, i: nat)
    requires Whole(p) && 16 * i + 16 == |p|
    ensures var c := CbcEncrypt(key, p);
            var before: Block := if i == 0 then Zeros(16) else BlockAt(c, i - 1);
            BlockAt(c, i) == Encrypt(key, XorBlock(BlockAt(p, i), before))
  {
    hide Encrypt, XorBlock;
    var front := CbcEncrypt(key, Front(p));
    var c := CbcEncrypt(key, p);
    assert c[..|front|] == front && BlockAt(c, i) == c[|front|..];
    assert BlockAt(p, i) == LastBlock(p);
    if i == 0 {
      assert Front(p) == [] && LastBlock(front) == Zeros(16);
    } else {
      assert BlockAt(c, i - 1) == front[|front| - 16..];
    }
  }

  lemma EarlierBlocks(key: Key, p: seq<octet>, i: nat)
    requires Whole(p) && 16 * i + 16 <= |p| - 16
    ensures BlockAt(Front(p), i) == BlockAt(p, i)
    ensures BlockAt(CbcEncrypt(key, Front(p)), i) == BlockAt(CbcEncrypt(key, p), i)
    ensures i > 0 ==> BlockAt(CbcEncrypt(key, Front(p)), i - 1) == BlockAt(CbcEncrypt(key, p), i - 1)
  {
    hide Encrypt, XorBlock;
    var front, c := CbcEncrypt(key, Front(p)), CbcEncrypt(key, p);
    assert c[..|front|] == front;
    assert front[16 * i..16 * i + 16] == c[16 * i..16 * i + 16];
  }

  /** A text of m whole blocks and r more bytes: the last two blocks of the padded text's ciphertext change places,
      and the one that is last now is cut to r bytes. */
  lemma CtsByBlocks(key: Key, p: seq<octet>, m: nat, r: nat)
    requires |p| == 16 * m + r && 1 <= m && 0 < r < 16
    ensures var padded := p + Zeros(16 - r);
            && Whole(padded)
            && var c := CbcEncrypt(key, padded);
               CtsEncrypt(key, p) == c[..16 * m - 16] + c[16 * m..] + c[16 * m - 16..16 * m - 16 + r]
  {
    hide CbcEncrypt, Padded, SwapLast;
    PaddedTo(p, m, r);
    SwapLastCut(CbcEncrypt(key, Padded(p)), m, r);
  }

  lemma PaddedTo(p: seq<octet>, m: nat, r: nat)
    requires |p| == 16 * m + r && 0 < r < 16
    ensures !Whole(p) && Padded(p) == p + Zeros(16 - r) && |Padded(p)| == 16 * m + 16
  {
    assert |p| % 16 == r;
  }

  lemma SwapLastCut(c: seq<octet>, m: nat, r: nat)
    requires Whole(c) && |c| == 16 * m + 16 && 1 <= m && r < 16
    ensures SwapLast(c)[..16 * m + r] == c[..16 * m - 16] + c[16 * m..] + c[16 * m - 16..16 * m - 16 + r]
  {
    CutAppended(c[..16 * m - 16] + c[16 * m..], c[16 * m - 16..16 * m], r);
  }
}
