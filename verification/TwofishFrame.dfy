/** The framed format: a header block with salt, length and a magic word in front of the text, and an
    optional hexadecimal form that is produced and consumed in place. */
module TwofishFrame {
  import opened TwofishBlock
  import opened TwofishCbc
  import opened TwofishStream

  // ----- hexadecimal digits

  function HexDigit(c: octet): octet {
    if c > 9 then c + 87 else c + 48
  }

  function ToLower(c: octet): octet {
    if 65 <= c <= 90 then c + 32 else c
  }

  function DigitValue(c: octet): octet {
    var d := ToLower(c) - 48;
    if d > 9 then d - 39 else d
  }

  function High(c: octet): octet { (c >> 4) & 15 }

  function Low(c: octet): octet { c & 15 }

  function Join(high: octet, low: octet): octet { (high << 4) | low }

  lemma DigitRoundTrip(c: octet)
    ensures DigitValue(HexDigit(High(c))) == High(c) && DigitValue(HexDigit(Low(c))) == Low(c)
    ensures Join(High(c), Low(c)) == c
  {
  }

  function Hex(s: seq<octet>): (h: seq<octet>)
    ensures |h| == 2 * |s|
  {
    if s == [] then [] else [HexDigit(High(s[0])), HexDigit(Low(s[0]))] + Hex(s[1..])
  }

  function Unhex(h: seq<octet>): (s: seq<octet>)
    requires |h| % 2 == 0
    ensures |s| == |h| / 2
  {
    if h == [] then [] else Unhex(h[..|h| - 2]) + [Join(DigitValue(h[|h| - 2]), DigitValue(h[|h| - 1]))]
  }

  lemma {:induction false} HexAppend(s: seq<octet>, c: octet)
    ensures Hex(s + [c]) == Hex(s) + [HexDigit(High(c)), HexDigit(Low(c))]
    decreases |s|
  {
    hide HexDigit, High, Low;
    if s == [] {
      assert s + [c] == [c];
      assert Hex([c][1..]) == [];
    } else {
      assert (s + [c])[1..] == s[1..] + [c];
      HexAppend(s[1..], c);
    }
  }

  /** Collapsing what was expanded gives back the bytes. */
  lemma {:induction false} HexRoundTrip(s: seq<octet>)
    ensures Unhex(Hex(s)) == s
    decreases |s|
  {
    hide HexDigit, High, Low, DigitValue, Join;
    if s != [] {
      var front, c := s[..|s| - 1], s[|s| - 1];
      assert front + [c] == s;
      HexAppend(front, c);
      HexRoundTrip(front);
      var h := Hex(s);
      assert h[..|h| - 2] == Hex(front);
      DigitRoundTrip(c);
    }
  }

  const LOWER := "0123456789abcdef"
  const UPPER := "0123456789ABCDEF"

  lemma DigitWritten(c: octet)
    requires c < 16
    ensures c as int < 16 && HexDigit(c) as int == LOWER[c as int] as int
  {
  }

  lemma Nibbles(c: octet)
    ensures High(c) < 16 && High(c) as int == c as int / 16
    ensures Low(c) < 16 && Low(c) as int == c as int % 16
  {
  }

  /** Each byte becomes its two lower-case hexadecimal digits, the high one first. */
  lemma HexIsLowerCase(s: seq<octet>, i: nat)
    requires i < |s|
    ensures |Hex(s)| == 2 * |s|
    ensures Hex(s)[2 * i] as int == LOWER[s[i] as int / 16] as int
    ensures Hex(s)[2 * i + 1] as int == LOWER[s[i] as int % 16] as int
  {
    hide HexDigit, High, Low;
    HexAt(s, i);
    Nibbles(s[i]);
    DigitWritten(High(s[i]));
    DigitWritten(Low(s[i]));
  }

  lemma {:induction false} HexAt(s: seq<octet>, i: nat)
    requires i < |s|
    ensures Hex(s)[2 * i] == HexDigit(High(s[i])) && Hex(s)[2 * i + 1] == HexDigit(Low(s[i]))
    decreases |s|
  {
    hide HexDigit, High, Low;
    if i > 0 { HexAt(s[1..], i - 1); }
  }

  /** The character c is the hexadecimal digit for v, in either case. */
  predicate IsDigit(c: octet, v: nat) {
    v < 16 && (c as int == LOWER[v] as int || c as int == UPPER[v] as int)
  }

  lemma DigitRead(c: octet, v: nat)
    requires IsDigit(c, v)
    ensures DigitValue(c) as int == v
  {
  }

  lemma JoinIsSum(high: octet, low: octet)
    requires high < 16 && low < 16
    ensures Join(high, low) as int == 16 * (high as int) + low as int
  {
  }

  lemma SmallNibble(c: octet, v: nat)
    requires c as int == v < 16
    ensures c < 16
  {
  }

  /** Two digits, in either case, are read as the byte they stand for. */
  lemma {:induction false} UnhexReadsBothCases(h: seq<octet>, i: nat, v: nat, w: nat)
    requires |h| % 2 == 0 && 2 * i + 1 < |h| && IsDigit(h[2 * i], v) && IsDigit(h[2 * i + 1], w)
    ensures Unhex(h)[i] as int == 16 * v + w
    decreases |h|
  {
    hide DigitValue, Join, IsDigit;
    if 2 * i + 2 == |h| {
      DigitRead(h[2 * i], v);
      DigitRead(h[2 * i + 1], w);
      assert v < 16 && w < 16 by { DigitIsSmall(h[2 * i], v); DigitIsSmall(h[2 * i + 1], w); }
      SmallNibble(DigitValue(h[2 * i]), v);
      SmallNibble(DigitValue(h[2 * i + 1]), w);
      JoinIsSum(DigitValue(h[2 * i]), DigitValue(h[2 * i + 1]));
    } else {
      UnhexReadsBothCases(h[..|h| - 2], i, v, w);
    }
  }

  lemma DigitIsSmall(c: octet, v: nat)
    requires IsDigit(c, v)
    ensures v < 16
  {
  }

  lemma HexNothing()
    ensures Hex([]) == []
  {
  }

  lemma HexFront(s: seq<octet>, c: octet, rest: seq<octet>)
    requires s == [c] + rest
    ensures Hex(s) == [HexDigit(High(c)), HexDigit(Low(c))] + Hex(rest)
  {
    hide HexDigit, High, Low;
    assert s[1..] == rest;
  }

  /** From the end to the front, so that no byte is overwritten before it has been read. */
  method BinToHex(buf: array<octet>, length: nat)
    requires 2 * length <= buf.Length
    modifies buf
    ensures buf[..2 * length] == Hex(old(buf[..length]))
    ensures buf[2 * length..] == old(buf[2 * length..])
  {
    hide HexDigit, High, Low, Hex;
    var len: nat := length;
    HexNothing();
    while len > 0
      invariant len <= length
      invariant buf[..len] == old(buf[..len])
      invariant buf[2 * len..2 * length] == Hex(old(buf[len..length]))
      invariant buf[2 * length..] == old(buf[2 * length..])
    {
      ghost var rest := buf[2 * len..2 * length];
      ghost var c := old(buf[len - 1]);
      assert buf[..len][len - 1] == c;
      HexFront(old(buf[len - 1..length]), c, old(buf[len..length]));
      var pi, po := len - 1, 2 * len - 1;
      buf[po] := HexDigit(Low(buf[pi]));
      buf[po - 1] := HexDigit(High(buf[pi]));
      assert buf[2 * len - 2..2 * length] == [HexDigit(High(c)), HexDigit(Low(c))] + rest;
      len := len - 1;
    }
  }

  lemma HexPairDone(was: seq<octet>, cur: seq<octet>, pi: nat, po: nat, length: nat)
    requires |was| == |cur| && pi == 2 * po && pi + 2 <= length <= |was|
    requires cur[..po] == Unhex(was[..pi]) && cur[pi..length] == was[pi..length]
    ensures var next := cur[po := Join(DigitValue(cur[pi]), DigitValue(cur[pi + 1]))];
            next[..po + 1] == Unhex(was[..pi + 2]) && next[pi + 2..length] == was[pi + 2..length]
  {
    hide DigitValue, Join;
    assert was[pi] == cur[pi] && was[pi + 1] == cur[pi + 1] by {
      assert cur[pi..length][0] == was[pi..length][0] && cur[pi..length][1] == was[pi..length][1];
    }
    assert was[pi + 2..length] == was[pi..length][2..] == cur[pi..length][2..];
    assert was[..pi + 2][..pi] == was[..pi];
  }

  lemma NoDigits()
    ensures Unhex([]) == []
  {
  }

  /** Two digits become one byte, the high digit first. */
  method CollapsePair(buf: array<octet>, pi: nat, po: nat)
    requires po <= pi && pi + 1 < buf.Length
    modifies buf
    ensures buf[..] == old(buf[..])[po := Join(DigitValue(old(buf[pi])), DigitValue(old(buf[pi + 1])))]
  {
    hide DigitValue;
    buf[po] := DigitValue(buf[pi]) << 4;
    buf[po] := buf[po] | DigitValue(buf[pi + 1]);
  }

  /** From the front to the end; the write position never overtakes the read position. */
  method HexToBin(buf: array<octet>, length: nat)
    requires length <= buf.Length && length % 2 == 0
    modifies buf
    ensures buf[..length / 2] == Unhex(old(buf[..length]))
  {
    hide DigitValue, Join, Unhex;
    ghost var was := buf[..];
    var len: nat, pi: nat, po: nat := length, 0, 0;
    NoDigits();
    assert was[..0] == [] && buf[..][..0] == [];
    while len > 0
      invariant len % 2 == 0 && pi + len == length && pi == 2 * po
      invariant buf[..][..po] == Unhex(was[..pi])
      invariant buf[..][pi..length] == was[pi..length]
    {
      ghost var cur := buf[..];
      HexPairDone(was, cur, pi, po, length);
      CollapsePair(buf, pi, po);
      len, pi, po := len - 2, pi + 2, po + 1;
    }
    assert was[..length] == old(buf[..length]);
  }

  // ----- the frame

  const MAGIC_LEN := 8

  /** "TwoFish" and its terminating zero. */
  const MAGIC: seq<octet> := [84, 119, 111, 70, 105, 115, 104, 0]

  const LIMIT := 0x1_0000_0000

  /** The header: 4 bytes of salt, 4 bytes of length, the magic word. */
  function Header(salt: word, n: nat): Block {
    Bytes(salt) + LengthBytes(n) + MAGIC
  }

  /** The length as a 32-bit number, least significant byte first. */
  function LengthBytes(n: nat): (b: seq<octet>)
    ensures |b| == 4
  {
    [(n % 0x100) as octet, (n / 0x100 % 0x100) as octet,
     (n / 0x1_0000 % 0x100) as octet, (n / 0x100_0000 % 0x100) as octet]
  }

  function LengthOf(b0: octet, b1: octet, b2: octet, b3: octet): nat {
    b0 as nat + b1 as nat * 0x100 + b2 as nat * 0x1_0000 + b3 as nat * 0x100_0000
  }

  lemma {:induction false} OctetWithValue(k: nat) returns (b: octet)
    requires k < 0x100
    ensures b as nat == k
  {
    b := 0;
    if k > 0 {
      b := OctetWithValue(k - 1);
      NextOctet(b);
      b := b + 1;
    }
  }

  lemma NextOctet(b: octet)
    requires b != 0xff
    ensures (b + 1) as nat == b as nat + 1
  {
  }

  lemma SameOctet(b: octet, k: nat)
    requires b as nat == k
    ensures k < 0x100 && k as octet == b
  {
  }

  lemma OctetValue(k: nat)
    requires k < 0x100
    ensures (k as octet) as nat == k
  {
    var b := OctetWithValue(k);
    SameOctet(b, k);
  }

  lemma LengthRoundTrip(n: nat)
    requires n < LIMIT
    ensures var b := LengthBytes(n); LengthOf(b[0], b[1], b[2], b[3]) == n
  {
    OctetValue(n % 0x100);
    OctetValue(n / 0x100 % 0x100);
    OctetValue(n / 0x1_0000 % 0x100);
    OctetValue(n / 0x100_0000 % 0x100);
    Digits(n);
  }

  lemma Digits(n: nat)
    requires n < LIMIT
    ensures n % 0x100 + n / 0x100 % 0x100 * 0x100
            + n / 0x1_0000 % 0x100 * 0x1_0000 + n / 0x100_0000 % 0x100 * 0x100_0000 == n
  {
    assert n / 0x1_0000 == n / 0x100 / 0x100 && n / 0x100_0000 == n / 0x100 / 0x100 / 0x100;
  }

  lemma OctetAsNat(b: octet) returns (n: nat)
    ensures n == b as nat < 0x100 && n as octet == b
  {
    n := b as nat;
  }

  lemma LengthParts(n: nat, n0: nat, n1: nat, n2: nat, n3: nat)
    requires n0 < 0x100 && n1 < 0x100 && n2 < 0x100 && n3 < 0x100
    requires n == n0 + n1 * 0x100 + n2 * 0x1_0000 + n3 * 0x100_0000
    ensures n < LIMIT && n % 0x100 == n0 && n / 0x100 % 0x100 == n1
    ensures n / 0x1_0000 % 0x100 == n2 && n / 0x100_0000 % 0x100 == n3
  {
    assert n / 0x100 == n1 + n2 * 0x100 + n3 * 0x1_0000;
    assert n / 0x1_0000 == n2 + n3 * 0x100;
  }

  lemma LengthBytesOf(n: nat, n0: nat, n1: nat, n2: nat, n3: nat)
    requires n0 < 0x100 && n1 < 0x100 && n2 < 0x100 && n3 < 0x100
    requires n == n0 + n1 * 0x100 + n2 * 0x1_0000 + n3 * 0x100_0000
    ensures n < LIMIT && LengthBytes(n) == [n0 as octet, n1 as octet, n2 as octet, n3 as octet]
  {
    LengthParts(n, n0, n1, n2, n3);
  }

  /** Every four bytes are a length below the limit, and the bytes of that length. */
  lemma EveryLengthIsBelowTheLimit(b0: octet, b1: octet, b2: octet, b3: octet)
    ensures LengthOf(b0, b1, b2, b3) < LIMIT && LengthBytes(LengthOf(b0, b1, b2, b3)) == [b0, b1, b2, b3]
  {
    hide LengthBytes;
    var n0 := OctetAsNat(b0);
    var n1 := OctetAsNat(b1);
    var n2 := OctetAsNat(b2);
    var n3 := OctetAsNat(b3);
    LengthBytesOf(LengthOf(b0, b1, b2, b3), n0, n1, n2, n3);
  }

  function Frame(salt: word, m: seq<octet>): seq<octet>
    requires |m| < LIMIT
  {
    Header(salt, |m|) + m
  }

  lemma FrameSize(salt: word, m: seq<octet>)
    requires |m| < LIMIT
    ensures |Frame(salt, m)| == BLOCK_SIZE + |m|
  {
  }

  function FrameEncrypt(key: Key, salt: word, m: seq<octet>, binhex: bool): (c: seq<octet>)
    requires |m| < LIMIT
    ensures |c| == if m == [] then 0 else if binhex then 2 * (BLOCK_SIZE + |m|) else BLOCK_SIZE + |m|
  {
    hide CtsEncrypt, Frame, Hex;
    if m == [] then []
    else
      assert |Frame(salt, m)| == BLOCK_SIZE + |m| by { FrameSize(salt, m); }
      var c := CtsEncrypt(key, Frame(salt, m));
      if binhex then Hex(c) else c
  }

  /** The text behind the header: as much as the header says and is there, or nothing when the magic word
      does not match. */
  function Unframe(p: seq<octet>): seq<octet>
    requires BLOCK_SIZE <= |p|
  {
    var n := LengthOf(p[4], p[5], p[6], p[7]);
    var olen := |p| - BLOCK_SIZE;
    if p[8..16] != MAGIC then [] else p[16..16 + if n > olen then olen else n]
  }

  /** The bytes that an input stands for. */
  function Decoded(c: seq<octet>, binhex: bool): seq<octet>
    requires binhex ==> |c| % 2 == 0
  {
    if binhex then Unhex(c) else c
  }

  /** What a text decrypts to.  A text that is shorter than a block is not chained, and depends on what an
      earlier text has left in prevCipher. */
  function Decrypted(key: Key, prev: Block, c: seq<octet>): (p: seq<octet>)
    requires c != []
    ensures BLOCK_SIZE <= |p| && (BLOCK_SIZE <= |c| ==> |p| == |c|)
  {
    if |c| < BLOCK_SIZE then LoneText(key, prev, c) else CtsDecrypt(key, c)
  }

  /** For a text shorter than a block the number of bytes behind the header wraps around, and no longer limits
      the length that the header gives; that length must not exceed what is there. */
  predicate WithinBounds(p: seq<octet>, c: seq<octet>)
    requires BLOCK_SIZE <= |p|
  {
    |c| < BLOCK_SIZE && p[8..16] == MAGIC ==> LengthOf(p[4], p[5], p[6], p[7]) <= |c|
  }

  function FrameDecrypt(key: Key, prev: Block, c: seq<octet>, binhex: bool): seq<octet>
    requires binhex ==> |c| % 2 == 0
  {
    var text := Decoded(c, binhex);
    if text == [] then [] else Unframe(Decrypted(key, prev, text))
  }

  lemma UnframeFrame(salt: word, m: seq<octet>)
    requires |m| < LIMIT
    ensures Unframe(Frame(salt, m)) == m
  {
    hide ByteOf, LengthOf, LengthBytes;
    var p := Frame(salt, m);
    LengthRoundTrip(|m|);
    var b := LengthBytes(|m|);
    assert p[4] == b[0] && p[5] == b[1] && p[6] == b[2] && p[7] == b[3];
    assert p[8..16] == MAGIC && p[16..] == m;
  }

  /** In hexadecimal form the ciphertext is written with lower-case digits. */
  lemma HexadecimalFormIsLowerCase(key: Key, salt: word, m: seq<octet>, i: nat)
    requires 0 < |m| < LIMIT && i < BLOCK_SIZE + |m|
    ensures var c, h := FrameEncrypt(key, salt, m, false), FrameEncrypt(key, salt, m, true);
            && h[2 * i] as int == LOWER[c[i] as int / 16] as int
            && h[2 * i + 1] as int == LOWER[c[i] as int % 16] as int
  {
    hide CtsEncrypt, Frame, Hex;
    FrameSize(salt, m);
    HexIsLowerCase(CtsEncrypt(key, Frame(salt, m)), i);
  }

  /** Salt, length and magic word stand in the header least significant byte first, and as plain text. */
  lemma HeaderLayout(salt: word, n: nat)
    requires n < LIMIT
    ensures var h := Header(salt, n);
            && WordOf(h[0], h[1], h[2], h[3]) == salt
            && h[4] as nat + 0x100 * (h[5] as nat) + 0x1_0000 * (h[6] as nat) + 0x100_0000 * (h[7] as nat) == n
            && (forall i :: 8 <= i < 15 ==> h[i] as int == "TwoFish"[i - 8] as int)
            && h[15] == 0
  {
    hide LengthBytes, ByteOf, WordOf;
    BytesWord(salt);
    LengthRoundTrip(n);
    MagicIsText();
    var h := Header(salt, n);
    assert h[8..] == MAGIC;
    forall i | 8 <= i < 15 ensures h[i] as int == "TwoFish"[i - 8] as int {
      assert h[i] == MAGIC[i - 8];
    }
    assert h[15] == MAGIC[7];
  }

  lemma MagicIsText()
    ensures |MAGIC| == 8 && MAGIC[7] == 0 && forall i :: 0 <= i < 7 ==> MAGIC[i] as int == "TwoFish"[i] as int
  {
  }

  /** A decrypted text is a message exactly when its magic word is right; then as many bytes are returned as its
      length says and as there are. */
  lemma MagicWordDecides(p: seq<octet>)
    requires BLOCK_SIZE <= |p|
    ensures var n := p[4] as nat + 0x100 * (p[5] as nat) + 0x1_0000 * (p[6] as nat) + 0x100_0000 * (p[7] as nat);
            var good := p[15] == 0 && forall i :: 8 <= i < 15 ==> p[i] as int == "TwoFish"[i - 8] as int;
            Unframe(p) == if !good then [] else if n <= |p| - 16 then p[16..16 + n] else p[16..]
  {
    MagicIsText();
    var good := p[15] == 0 && forall i :: 8 <= i < 15 ==> p[i] as int == "TwoFish"[i - 8] as int;
    if good {
      forall i | 0 <= i < 8 ensures p[8..16][i] == MAGIC[i] {
        if i < 7 { SameOctets(p[8 + i], MAGIC[i]); }
      }
      assert p[8..16] == MAGIC;
    } else {
      WrongMagic(p);
    }
  }

  lemma SameOctets(a: octet, b: octet)
    requires a as int == b as int
    ensures a == b
  {
  }

  lemma WrongMagic(p: seq<octet>)
    requires BLOCK_SIZE <= |p|
    requires p[15] != 0 || exists i :: 8 <= i < 15 && p[i] as int != "TwoFish"[i - 8] as int
    ensures p[8..16] != MAGIC
  {
    MagicIsText();
    if p[15] != 0 {
      assert p[8..16][7] != MAGIC[7];
    } else {
      var i :| 8 <= i < 15 && p[i] as int != "TwoFish"[i - 8] as int;
      assert p[8..16][i - 8] as int != MAGIC[i - 8] as int;
    }
  }

  /** Every message that is not empty comes back exactly, for every key, salt and leftover state, also through the
      hexadecimal form, and also when it is so short that it steals from the header block. */
  lemma FrameRoundTrip(key: Key, salt: word, prev: Block, m: seq<octet>, binhex: bool)
    requires 0 < |m| < LIMIT
    ensures var c := FrameEncrypt(key, salt, m, binhex);
            && (binhex ==> |c| % 2 == 0) && BLOCK_SIZE < |Decoded(c, binhex)|
            && FrameDecrypt(key, prev, c, binhex) == m
  {
    hide CtsEncrypt, CtsDecrypt, Unframe, Hex, Unhex;
    CtsRoundTrip(key, Frame(salt, m));
    UnframeFrame(salt, m);
    HexRoundTrip(CtsEncrypt(key, Frame(salt, m)));
  }

  // ----- the code as it runs

  /** TwoFishEncrypt: header and text are processed as one stream; the output buffer is allocated unless
      the caller brings one. */
  method EncryptMessage(tf: TwoFish, inp: seq<octet>, given: array?<octet>, binhex: bool, salt: word)
    returns (out: array?<octet>, olen: nat)
    requires !tf.dontflush && 2 * (|inp| + BLOCK_SIZE) < LIMIT
    requires given != null ==> FrameRoom(inp) <= given.Length && MessageRoom(inp, binhex) <= given.Length
    modifies tf, given
    ensures inp == [] ==> olen == 0
    ensures inp != [] ==> out != null && (if given != null then out == given else fresh(out))
    ensures inp != [] ==> olen <= out.Length && out[..olen] == FrameEncrypt(tf.key, salt, inp, binhex)
    ensures given != null ==> given[MessageRoom(inp, binhex)..] == old(given[MessageRoom(inp, binhex)..])
  {
    hide CtsEncrypt, Hex, Frame, Padded, FrameEncrypt;
    out, olen := given, 0;
    if inp == [] { return; }
    PaddedRoom(inp);
    EncryptedForm(tf.key, salt, inp, binhex);
    if out == null {
      out := new octet[(if binhex then 2 * (|inp| + BLOCK_SIZE) else |inp| + BLOCK_SIZE) + BLOCK_SIZE](_ => 0);
    }
    ghost var was := out[..];
    olen := EncryptFrame(tf, inp, out, salt);
    ghost var framed := out[..];
    if binhex {
      BinToHex(out, olen);
      olen := olen * 2;
      assert out[olen..] == framed[olen..] == framed[FrameRoom(inp)..][olen - FrameRoom(inp)..]
          == was[FrameRoom(inp)..][olen - FrameRoom(inp)..] == was[olen..];
    }
  }

  lemma EncryptedForm(key: Key, salt: word, m: seq<octet>, binhex: bool)
    requires 0 < |m| < LIMIT
    ensures |Frame(salt, m)| == BLOCK_SIZE + |m|
    ensures var c := CtsEncrypt(key, Frame(salt, m)); FrameEncrypt(key, salt, m, binhex) == if binhex then Hex(c) else c
  {
    hide CtsEncrypt, Hex;
  }

  /** The output bytes that the frame needs while it is encrypted, and that the message takes up. */
  function FrameRoom(m: seq<octet>): nat { BLOCK_SIZE + |Padded(m)| }

  function MessageRoom(m: seq<octet>, binhex: bool): nat {
    if m == [] then 0 else if binhex then 2 * (BLOCK_SIZE + |m|) else FrameRoom(m)
  }

  lemma PaddedRoom(inp: seq<octet>)
    ensures |Padded(inp)| < |inp| + BLOCK_SIZE
  {
  }

  /** The header block and the text behind it, without a reset in between. */
  method EncryptFrame(tf: TwoFish, inp: seq<octet>, out: array<octet>, salt: word) returns (olen: nat)
    requires !tf.dontflush && inp != [] && |inp| < LIMIT
    requires FrameRoom(inp) <= out.Length
    modifies tf, out
    ensures olen == |inp| + BLOCK_SIZE <= out.Length
    ensures |Frame(salt, inp)| == olen && out[..olen] == CtsEncrypt(tf.key, Frame(salt, inp))
    ensures out[FrameRoom(inp)..] == old(out[FrameRoom(inp)..])
  {
    hide CtsEncrypt, CbcEncrypt, Header, Padded, SameOutside;
    ghost var was := out[..];
    tf.buf, tf.output := out, 0;
    tf.ResetCBC();
    var header := Header(salt, |inp|);
    HeaderRoom(header, inp);
    NothingChained(tf.key, false);
    assert out[..][0..0] == [] && [] + header == header;
    tf.BlockWithin(header, 0, false, 0, [], FrameRoom(inp));
    ghost var between := out[..];
    olen := tf.CryptRawCBC(inp, BLOCK_SIZE, false, 0, header);
    SameTwice(was, between, out[..], 0, FrameRoom(inp));
    SameBehind(was, out[..], FrameRoom(inp));
    assert out[FrameRoom(inp)..] == out[..][FrameRoom(inp)..] && was[FrameRoom(inp)..] == old(out[FrameRoom(inp)..]);
    olen := olen + BLOCK_SIZE;
    assert out[..olen] == out[..][0..0 + olen];
  }

  lemma HeaderRoom(header: Block, inp: seq<octet>)
    ensures |Padded(header + inp)| == BLOCK_SIZE + |Padded(inp)| && Whole(header) && header != []
  {
    hide Padded;
    SameRemainder(BLOCK_SIZE, |inp|);
  }

  /** The room that the result may take up. */
  function ResultRoom(n: nat): nat {
    if n < BLOCK_SIZE then n else n - BLOCK_SIZE
  }

  /** TwoFishDecrypt. */
  method DecryptMessage(tf: TwoFish, inp: array<octet>, length: nat, given: array?<octet>, binhex: bool)
    returns (out: array?<octet>, elen: nat)
    requires !tf.dontflush && length <= inp.Length && length < LIMIT && (binhex ==> length % 2 == 0)
    requires var c := Decoded(inp[..length], binhex); c != [] ==> WithinBounds(Decrypted(tf.key, tf.prevCipher, c), c)
    requires given != null ==> given != inp && ResultRoom(if binhex then length / 2 else length) <= given.Length
    modifies tf, inp, given
    ensures length == 0 ==> out == given && elen == 0
    ensures length > 0 ==> out != null && (if given != null then out == given else fresh(out))
    ensures length > 0 ==> elen <= out.Length
    ensures length > 0 ==> out[..elen] == FrameDecrypt(tf.key, old(tf.prevCipher), old(inp[..length]), binhex)
    ensures given != null ==> elen <= given.Length && given[elen..] == old(given[elen..])
    ensures !binhex ==> inp[..] == old(inp[..])
  {
    hide CtsDecrypt, LoneText, Hex, Unhex, Unframe, WithinBounds, LengthOf;
    var ilen: nat := length;
    out, elen := given, 0;
    if ilen == 0 { return; }
    if out == null {
      out := new octet[if binhex then length / 2 else length](_ => 0);
    }
    if binhex {
      HexToBin(inp, ilen);
      ilen := ilen / 2;
    }
    elen := DecryptFrame(tf, inp[..ilen], out);
  }

  /** The decryption into a buffer of its own, the check of the header, and the copy. */
  method DecryptFrame(tf: TwoFish, c: seq<octet>, out: array<octet>) returns (elen: nat)
    requires !tf.dontflush && 0 < |c| < LIMIT && ResultRoom(|c|) <= out.Length
    requires WithinBounds(Decrypted(tf.key, tf.prevCipher, c), c)
    modifies tf, out
    ensures elen <= out.Length && out[..elen] == Unframe(Decrypted(tf.key, old(tf.prevCipher), c))
    ensures out[elen..] == old(out[elen..])
  {
    hide CtsDecrypt, CbcDecrypt, LoneText, LengthOf;
    ghost var p := Decrypted(tf.key, tf.prevCipher, c);
    var tbuf := DecryptText(tf, c);
    var olen: nat := (|c| - BLOCK_SIZE) % LIMIT;
    PartOfPrefix(tbuf, p, 8, 16);
    var same := CompareMagic(tbuf);
    if same {
      elen := LengthOf(tbuf[4], tbuf[5], tbuf[6], tbuf[7]);
      if elen > olen { elen := olen; }
      PartOfPrefix(tbuf, p, BLOCK_SIZE, BLOCK_SIZE + elen);
      CopyOut(tbuf, BLOCK_SIZE, elen, out);
    } else {
      elen := 0;
    }
  }

  lemma PartOfPrefix(a: array<octet>, p: seq<octet>, i: nat, j: nat)
    requires |p| <= a.Length && a[..|p|] == p && i <= j <= |p|
    ensures a[i..j] == p[i..j]
    ensures forall k :: 0 <= k < |p| ==> a[k] == p[k]
  {
    forall k | 0 <= k < |p| ensures a[k] == p[k] {
      assert a[..|p|][k] == p[k];
    }
  }

  /** The decryption of a whole text from a reset queue. */
  method DecryptText(tf: TwoFish, c: seq<octet>) returns (tbuf: array<octet>)
    requires !tf.dontflush && c != []
    modifies tf
    ensures fresh(tbuf) && tbuf.Length == |c| + BLOCK_SIZE
    ensures var p := Decrypted(tf.key, old(tf.prevCipher), c); tbuf[..|p|] == p
  {
    hide CtsDecrypt, CbcDecrypt, LoneText;
    tf.ResetCBC();
    tbuf := new octet[|c| + BLOCK_SIZE](_ => 0);
    tf.buf, tf.output := tbuf, 0;
    if |c| < BLOCK_SIZE {
      tf.DecryptLone(c);
    } else {
      NothingChained(tf.key, true);
      assert tbuf[..][0..0] == [] && [] + c == c;
      var rl := tf.CryptRawCBC(c, 0, true, 0, []);
      assert tbuf[..|c|] == tbuf[..][0..0 + |c|];
    }
  }

  /** The loop that stops at the first byte of the magic word that differs. */
  method CompareMagic(tbuf: array<octet>) returns (same: bool)
    requires BLOCK_SIZE <= tbuf.Length
    ensures same <==> tbuf[8..16] == MAGIC
  {
    var e: nat := 0;
    while e < MAGIC_LEN
      invariant e <= MAGIC_LEN && tbuf[8..8 + e] == MAGIC[..e]
    {
      if tbuf[8 + e] != MAGIC[e] {
        assert tbuf[8..16][e] != MAGIC[e];
        return false;
      }
      e := e + 1;
    }
    return true;
  }

  method CopyOut(src: array<octet>, from: nat, count: nat, dst: array<octet>)
    requires from + count <= src.Length && count <= dst.Length && src != dst
    modifies dst
    ensures dst[..count] == src[from..from + count] && dst[count..] == old(dst[count..])
  {
    var i: nat := 0;
    while i < count
      invariant i <= count && dst[..i] == src[from..from + i] && dst[count..] == old(dst[count..])
    {
      dst[i] := src[from + i];
      i := i + 1;
    }
  }
}
