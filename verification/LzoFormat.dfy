/** The LZO1X stream as a list of phrases (a literal run followed by a match), what the list expands
    to, and the bytes that spell it. */
module LzoFormat {
  import opened Bytes

  const M2_MAX_LEN := 8
  const M2_MAX_OFFSET := 0x0800
  const M3_MAX_LEN := 33
  const M3_MAX_OFFSET := 0x4000
  const M4_MAX_LEN := 9
  const M4_MAX_OFFSET := 0xbfff
  const M3_MARKER := 32
  const M4_MARKER := 16

  /** Phrases are added at the end, as the compressor emits them. */
  datatype Phrases = Begin | Phrase(before: Phrases, lits: seq<byte>, off: nat, len: nat)

  function Size(ps: Phrases): nat {
    match ps
    case Begin => 0
    case Phrase(before, lits, off, len) => Size(before) + |lits| + len
  }

  /** What every emitted phrase satisfies: the match lies inside the text produced so far, a far match
      has at least four bytes, and the first phrase starts with at least four literals. */
  predicate WellFormed(ps: Phrases) {
    match ps
    case Begin => true
    case Phrase(before, lits, off, len) =>
      && WellFormed(before)
      && 1 <= off <= M4_MAX_OFFSET
      && off <= Size(before) + |lits|
      && 3 <= len
      && (off > M2_MAX_OFFSET ==> 4 <= len)
      && (before.Begin? ==> 4 <= |lits|)
  }

  /** A match copied byte by byte; source and destination may overlap. */
  function CopyMatch(out: seq<byte>, pos: nat, len: nat): (r: seq<byte>)
    requires pos < |out|
    ensures |r| == |out| + len && out <= r
    decreases len
  {
    if len == 0 then out else CopyMatch(out + [out[pos]], pos + 1, len - 1)
  }

  /** The copied bytes continue the text with period |out| - pos. */
  lemma {:induction false} CopyIsPeriodic(out: seq<byte>, pos: nat, len: nat, i: nat)
    requires pos < |out| <= i < |out| + len
    ensures CopyMatch(out, pos, len)[i] == CopyMatch(out, pos, len)[i - (|out| - pos)]
    decreases len
  {
    var next := out + [out[pos]];
    if i > |out| {
      CopyIsPeriodic(next, pos + 1, len - 1, i);
    } else {
      var r := CopyMatch(out, pos, len);
      assert r[|out|] == next[|out|] && r[pos] == next[pos];
    }
  }

  /** The text a phrase list stands for. */
  function Expand(ps: Phrases): (r: seq<byte>)
    requires WellFormed(ps)
    ensures |r| == Size(ps)
  {
    match ps
    case Begin => []
    case Phrase(before, lits, off, len) =>
      var text := Expand(before) + lits;
      CopyMatch(text, |text| - off, len)
  }

  /** The copy of a match inside a text s reproduces s, when s repeats itself at that distance. */
  lemma {:induction false} CopyReproduces(s: seq<byte>, at: nat, pos: nat, len: nat)
    requires pos < at && at + len <= |s|
    requires forall i :: at <= i < at + len ==> s[i] == s[i - (at - pos)]
    ensures CopyMatch(s[..at], pos, len) == s[..at + len]
    decreases len
  {
    if len > 0 {
      assert s[at] == s[pos];
      assert s[..at] + [s[..at][pos]] == s[..at + 1];
      CopyReproduces(s, at + 1, pos + 1, len - 1);
    }
  }

  /** A positive number as a run of zero bytes, each worth 255, and a last non-zero byte. */
  function Run(x: nat): (r: seq<byte>)
    requires x > 0
    ensures 1 <= |r| && 255 * (|r| - 1) < x <= 255 * |r|
  {
    if x > 255 then [0] + Run(x - 255) else [x]
  }

  /** The bytes in front of a run of t > 3 literals. */
  function LitHeader(t: nat): (r: seq<byte>)
    requires t > 3
    ensures 1 <= |r|
    ensures r[0] < 16
  {
    if t <= 18 then [t - 3] else [0] + Run(t - 18)
  }

  /** Literals added behind the code e: one to three of them are counted in the low bits of the last
      byte but one of e. */
  function AddLits(e: seq<byte>, lits: seq<byte>): (r: seq<byte>)
    requires |lits| <= 3 ==> |lits| == 0 || 2 <= |e|
  {
    if |lits| == 0 then e
    else if |lits| <= 3 then e[|e| - 2 := OrLow(e[|e| - 2], |lits|)] + lits
    else e + LitHeader(|lits|) + lits
  }

  /** The 14 low bits of a match distance, shifted two bits up. */
  function OffBytes(o: nat): (r: seq<byte>)
    ensures |r| == 2 && r[0] % 4 == 0
  {
    [(o % 64) * 4, (o / 64) % 256]
  }

  /** Opcode and length of a match that is not an M2 match. */
  function LongOpcode(marker: byte, maxLen: nat, len: nat): (r: seq<byte>)
    requires marker % 8 == 0 && 16 <= marker < 64 && 3 <= len
    requires (maxLen == M3_MAX_LEN && marker == M3_MARKER) || (maxLen == M4_MAX_LEN && marker < 32)
    ensures 1 <= |r| && 16 <= r[0]
    ensures |r| + 2 <= len || len == 3 || len == 4
    ensures len <= 4 ==> |r| == 1
  {
    if len <= maxLen then [marker + len - 2] else [marker] + Run(len - maxLen)
  }

  /** The code of one match. */
  function MatchCode(off: nat, len: nat): (r: seq<byte>)
    requires 1 <= off <= M4_MAX_OFFSET && 3 <= len
    ensures 2 <= |r| && 16 <= r[0]
    ensures r[|r| - 2] % 4 == 0
    ensures off > M2_MAX_OFFSET ==> 4 <= len ==> |r| < len
    ensures off <= M2_MAX_OFFSET ==> |r| < len
  {
    if len <= M2_MAX_LEN && off <= M2_MAX_OFFSET then
      var o := off - 1;
      [(len - 1) * 32 + (o % 8) * 4, o / 8]
    else if off <= M3_MAX_OFFSET then
      LongOpcode(M3_MARKER, M3_MAX_LEN, len) + OffBytes(off - 1)
    else
      var o := off - 0x4000;
      LongOpcode(M4_MARKER + (o / 0x4000) % 2 * 8, M4_MAX_LEN, len) + OffBytes(o)
  }

  /** The bytes the compressor has written once the phrases are out. */
  function Encode(ps: Phrases): (r: seq<byte>)
    requires WellFormed(ps)
    ensures ps.Phrase? ==> 7 <= |r| && r[|r| - 2] % 4 == 0
  {
    match ps
    case Begin => []
    case Phrase(before, lits, off, len) => AddLits(Encode(before), lits) + MatchCode(off, len)
  }

  /** The phrases and a tail of literals; up to 238 literals that make up the whole text have an opcode
      of their own. */
  function Body(ps: Phrases, tail: seq<byte>): (r: seq<byte>)
    requires WellFormed(ps)
  {
    if ps.Begin? && 0 < |tail| <= 238 then [17 + |tail|] + tail else AddLits(Encode(ps), tail)
  }

  /** The whole stream ends with the end marker, an M4 match whose distance field is zero. */
  function Stream(ps: Phrases, tail: seq<byte>): (r: seq<byte>)
    requires WellFormed(ps)
  {
    Body(ps, tail) + [M4_MARKER + 1, 0, 0]
  }
}
