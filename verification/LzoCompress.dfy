/** The compressor: a hash dictionary of earlier positions, and greedy matches. */
module LzoCompress {
  import opened Bytes
  import opened LzoFormat

  const DICT_SIZE := 0x4000

  // ----- size of the code

  lemma LitHeaderSize(t: nat)
    requires t > 3
    ensures 16 * |LitHeader(t)| <= 16 + t
  {
  }

  lemma AddLitsSize(e: seq<byte>, lits: seq<byte>)
    requires |lits| <= 3 ==> |lits| == 0 || 2 <= |e|
    ensures 16 * |AddLits(e, lits)| <= 16 * |e| + 17 * |lits| + 16
    ensures |e| + |lits| <= |AddLits(e, lits)|
  {
    if |lits| > 3 { LitHeaderSize(|lits|); }
  }

  /** Code never grows by more than a sixteenth: each match saves a byte, which pays for one header byte
      of the literals before it, and longer headers belong to runs of more than 18 literals. */
  lemma {:induction false} EncodeSize(ps: Phrases)
    requires WellFormed(ps)
    ensures 16 * |Encode(ps)| <= 17 * Size(ps)
  {
    match ps
    case Begin =>
    case Phrase(before, lits, off, len) =>
      EncodeSize(before);
      AddLitsSize(Encode(before), lits);
  }

  /** The documented bound on the compressed size is n + n/16 + 64 + 3; n + n/16 + 4 is enough. */
  lemma StreamSize(ps: Phrases, tail: seq<byte>)
    requires WellFormed(ps)
    ensures var n := Size(ps) + |tail|; |Stream(ps, tail)| <= n + n / 16 + 4
  {
    EncodeSize(ps);
    if !(ps.Begin? && |tail| <= 238) {
      AddLitsSize(Encode(ps), tail);
    }
  }

  // ----- the dictionary

  /** The primary hash of the four bytes at p. */
  function Hash1(src: seq<byte>, p: nat): (d: nat)
    requires p + 3 < |src|
    ensures d < DICT_SIZE
  {
    HashOf(src[p], src[p + 1], src[p + 2], src[p + 3])
  }

  function HashOf(b0: byte, b1: byte, b2: byte, b3: byte): (d: nat)
    ensures d < DICT_SIZE
  {
    var high := ((b3 as bv32) << 6) ^ (b2 as bv32);
    var x := (((high << 5) ^ (b1 as bv32)) << 5) ^ (b0 as bv32);
    0x21 * (x as int) / 32 % DICT_SIZE
  }

  /** The secondary hash keeps eleven bits, flips the lowest five and sets a high one. */
  function Hash2(d: nat): (d': nat)
    ensures d' < DICT_SIZE
  {
    d % 0x800 / 32 * 32 + (31 - d % 32) + 0x2000
  }

  /** LZO_CHECK_MPOS_NON_DET: whatever the slot holds is only taken when it is an earlier position of
      this input, near enough. */
  predicate Usable(ip: nat, slot: int) {
    0 <= slot && 1 <= ip - slot <= M4_MAX_OFFSET
  }

  /** A far candidate must agree in a fourth byte. */
  predicate WorthTrying(src: seq<byte>, ip: nat, pos: nat)
    requires pos < ip && ip + 3 < |src|
  {
    ip - pos <= M2_MAX_OFFSET || src[pos + 3] == src[ip + 3]
  }

  predicate SameThree(src: seq<byte>, ip: nat, pos: nat)
    requires pos < ip && ip + 2 < |src|
  {
    src[pos] == src[ip] && src[pos + 1] == src[ip + 1] && src[pos + 2] == src[ip + 2]
  }

  datatype Probe = Probe(slot: nat, pos: int)   // pos == -1: no match

  /** The slot that position ip is entered into, and the position of the match found for it. */
  function Lookup(src: seq<byte>, dict: seq<int>, ip: nat): (r: Probe)
    requires |dict| == DICT_SIZE && ip + 8 < |src|
    ensures r.slot < DICT_SIZE && -1 <= r.pos < ip
    ensures r.pos >= 0 ==> Usable(ip, r.pos) && WorthTrying(src, ip, r.pos) && SameThree(src, ip, r.pos)
  {
    var d1 := Hash1(src, ip);
    if !Usable(ip, dict[d1]) then Probe(d1, -1)
    else if WorthTrying(src, ip, dict[d1]) then
      Probe(d1, if SameThree(src, ip, dict[d1]) then dict[d1] else -1)
    else
      var d2 := Hash2(d1);
      if Usable(ip, dict[d2]) && WorthTrying(src, ip, dict[d2]) && SameThree(src, ip, dict[d2]) then Probe(d2, dict[d2])
      else Probe(d2, -1)
  }

  /** How far the text at ip agrees with the text at pos. */
  function MatchLength(src: seq<byte>, ip: nat, pos: nat): (len: nat)
    requires pos < ip <= |src|
    ensures ip + len <= |src|
    ensures ip + len < |src| ==> src[ip + len] != src[pos + len]
    decreases |src| - ip
  {
    if ip < |src| && src[ip] == src[pos] then 1 + MatchLength(src, ip + 1, pos + 1) else 0
  }

  lemma {:induction false} MatchAgrees(src: seq<byte>, ip: nat, pos: nat, k: nat)
    requires pos < ip <= |src| && k < MatchLength(src, ip, pos)
    ensures src[ip + k] == src[pos + k]
    decreases k
  {
    if k > 0 { MatchAgrees(src, ip + 1, pos + 1, k - 1); }
  }

  /** Whatever the dictionary holds, a match that is found lies in the text before ip, at a distance the
      format can express, and is long enough for the code it gets. */
  lemma LookupIsSound(src: seq<byte>, dict: seq<int>, ip: nat)
    requires |dict| == DICT_SIZE && ip + 8 < |src|
    requires Lookup(src, dict, ip).pos >= 0
    ensures var pos := Lookup(src, dict, ip).pos;
            && 1 <= ip - pos <= M4_MAX_OFFSET
            && 3 <= MatchLength(src, ip, pos)
            && (ip - pos > M2_MAX_OFFSET ==> 4 <= MatchLength(src, ip, pos))
            && src[pos..pos + MatchLength(src, ip, pos)] == src[ip..ip + MatchLength(src, ip, pos)]
  {
    hide Hash1, Hash2, Lookup;
    var pos := Lookup(src, dict, ip).pos;
    var len := MatchLength(src, ip, pos);
    assert len == 1 + MatchLength(src, ip + 1, pos + 1);
    assert MatchLength(src, ip + 1, pos + 1) == 1 + MatchLength(src, ip + 2, pos + 2);
    assert MatchLength(src, ip + 2, pos + 2) == 1 + MatchLength(src, ip + 3, pos + 3);
    var earlier, here := src[pos..pos + len], src[ip..ip + len];
    forall k | 0 <= k < len ensures earlier[k] == here[k] {
      MatchAgrees(src, ip, pos, k);
    }
  }

  // ----- the parse

  /** State of the parse: the phrases emitted, the first byte not yet covered, the next position to try
      and the dictionary. */
  datatype Parse = Parse(ps: Phrases, ii: nat, ip: nat, dict: seq<int>)

  ghost predicate ValidParse(src: seq<byte>, p: Parse) {
    && WellFormed(p.ps)
    && Size(p.ps) == p.ii <= p.ip <= |src|
    && Expand(p.ps) == src[..p.ii]
    && (p.ps.Begin? ==> 4 <= p.ip)
    && |p.dict| == DICT_SIZE
  }

  /** One round of the compressor's loop. */
  function Round(src: seq<byte>, p: Parse): (p': Parse)
    requires |p.dict| == DICT_SIZE && p.ii <= p.ip && p.ip + 8 < |src|
    ensures |p'.dict| == DICT_SIZE && p'.ii <= p'.ip <= |src| && p.ip < p'.ip
  {
    var probe := Lookup(src, p.dict, p.ip);
    var dict := p.dict[probe.slot := p.ip];
    if probe.pos < 0 then Parse(p.ps, p.ii, p.ip + 1, dict)
    else
      var len := MatchLength(src, p.ip, probe.pos);
      Parse(Phrase(p.ps, src[p.ii..p.ip], p.ip - probe.pos, len), p.ip + len, p.ip + len, dict)
  }

  /** A round keeps the phrases an exact account of the text covered so far. */
  lemma RoundIsValid(src: seq<byte>, p: Parse)
    requires ValidParse(src, p) && p.ip + 8 < |src|
    ensures ValidParse(src, Round(src, p))
  {
    hide Lookup, MatchLength, CopyMatch, WellFormed, Expand, Size;
    var probe := Lookup(src, p.dict, p.ip);
    if probe.pos >= 0 {
      LookupIsSound(src, p.dict, p.ip);
      PhraseIsValid(src, p.ps, p.ii, p.ip, probe.pos);
    }
  }

  /** The phrase for a match accounts for the text up to the end of the match. */
  lemma PhraseIsValid(src: seq<byte>, ps: Phrases, ii: nat, ip: nat, pos: nat)
    requires WellFormed(ps) && Size(ps) == ii <= ip <= |src| && Expand(ps) == src[..ii] && (ps.Begin? ==> 4 <= ip)
    requires pos < ip && ip - pos <= M4_MAX_OFFSET && 3 <= MatchLength(src, ip, pos)
    requires ip - pos > M2_MAX_OFFSET ==> 4 <= MatchLength(src, ip, pos)
    ensures var len := MatchLength(src, ip, pos);
            var ps' := Phrase(ps, src[ii..ip], ip - pos, len);
            WellFormed(ps') && Size(ps') == ip + len && Expand(ps') == src[..ip + len]
  {
    hide MatchLength, CopyMatch;
    assert Expand(ps) + src[ii..ip] == src[..ip];
    MatchIsCopied(src, ip, pos);
  }

  lemma MatchIsCopied(src: seq<byte>, ip: nat, pos: nat)
    requires pos < ip <= |src|
    ensures CopyMatch(src[..ip], pos, MatchLength(src, ip, pos)) == src[..ip + MatchLength(src, ip, pos)]
  {
    hide MatchLength, CopyMatch;
    var len := MatchLength(src, ip, pos);
    forall i | ip <= i < ip + len ensures src[i] == src[i - (ip - pos)] {
      MatchAgrees(src, ip, pos, i - ip);
    }
    CopyReproduces(src, ip, pos, len);
  }

  /** Rounds until fewer than 14 bytes are left. */
  function Rounds(src: seq<byte>, p: Parse): (p': Parse)
    requires |p.dict| == DICT_SIZE && p.ii <= p.ip && p.ip + 8 < |src|
    decreases |src| - p.ip
  {
    var p' := Round(src, p);
    if p'.ip + 13 >= |src| then p' else Rounds(src, p')
  }

  lemma {:induction false} RoundsAreValid(src: seq<byte>, p: Parse)
    requires ValidParse(src, p) && p.ip + 8 < |src|
    ensures ValidParse(src, Rounds(src, p))
    decreases |src| - p.ip
  {
    RoundIsValid(src, p);
    if Round(src, p).ip + 13 < |src| {
      RoundsAreValid(src, Round(src, p));
    }
  }

  /** The parse of a whole input: inputs of up to 13 bytes are not searched. */
  function ParseAll(src: seq<byte>, dict: seq<int>): (p: Parse)
    requires |dict| == DICT_SIZE
    ensures ValidPhrases(src, p)
  {
    ParseIsValid(src, dict);
    if |src| <= M2_MAX_LEN + 5 then Parse(Begin, 0, 0, dict) else Rounds(src, Parse(Begin, 0, 4, dict))
  }

  ghost predicate ValidPhrases(src: seq<byte>, p: Parse) {
    WellFormed(p.ps) && Size(p.ps) == p.ii <= |src| && Expand(p.ps) == src[..p.ii]
  }

  lemma ParseIsValid(src: seq<byte>, dict: seq<int>)
    requires |dict| == DICT_SIZE
    ensures |src| > M2_MAX_LEN + 5 ==> ValidPhrases(src, Rounds(src, Parse(Begin, 0, 4, dict)))
    ensures ValidPhrases(src, Parse(Begin, 0, 0, dict))
  {
    if |src| > M2_MAX_LEN + 5 {
      var p := Parse(Begin, 0, 4, dict);
      assert ValidParse(src, p);
      RoundsAreValid(src, p);
    }
  }

  /** What the compressor writes. */
  function Compressed(src: seq<byte>, dict: seq<int>): seq<byte>
    requires |dict| == DICT_SIZE
  {
    var p := ParseAll(src, dict);
    Stream(p.ps, src[p.ii..])
  }

  // ----- the code as it runs

  lemma Associate(a: seq<byte>, b: seq<byte>, c: seq<byte>)
    ensures a + b + c == a + (b + c)
  {
  }

  /** One byte behind the output. */
  method Put(out: array<byte>, start: nat, b: byte) returns (op: nat)
    requires start < out.Length
    modifies out
    ensures op == start + 1 && out[..op] == old(out[..start]) + [b]
  {
    out[start] := b;
    op := start + 1;
  }

  /** The count x as a 255-run behind the output. */
  method EmitRun(out: array<byte>, start: nat, x: nat) returns (op: nat)
    requires x > 0 && start + |Run(x)| <= out.Length
    modifies out
    ensures op == start + |Run(x)|
    ensures out[..op] == old(out[..start]) + Run(x)
  {
    var left: nat := x;
    op := start;
    while left > 255
      invariant 0 < left && start <= op && op + |Run(left)| == start + |Run(x)|
      invariant out[..op] + Run(left) == old(out[..start]) + Run(x)
    {
      ghost var before := out[..op];
      assert before + Run(left) == before + [0] + Run(left - 255);
      left := left - 255;
      op := Put(out, op, 0);
    }
    op := Put(out, op, left);
  }

  /** Input bytes copied behind the output. */
  method CopyIn(out: array<byte>, start: nat, src: seq<byte>, ii: nat, count: nat) returns (op: nat)
    requires start + count <= out.Length && ii + count <= |src|
    modifies out
    ensures op == start + count
    ensures out[..op] == old(out[..start]) + src[ii..ii + count]
  {
    var k: nat := 0;
    op := start;
    while k < count
      invariant k <= count && op == start + k
      invariant out[..op] == old(out[..start]) + src[ii..ii + k]
    {
      op := Put(out, op, src[ii + k]);
      k := k + 1;
    }
  }

  /** The bytes in front of more than three literals. */
  method EmitLitHeader(out: array<byte>, start: nat, t: nat) returns (op: nat)
    requires t > 3 && start + |LitHeader(t)| <= out.Length
    modifies out
    ensures op == start + |LitHeader(t)|
    ensures out[..op] == old(out[..start]) + LitHeader(t)
  {
    if t <= 18 {
      op := Put(out, start, t - 3);
    } else {
      op := Put(out, start, 0);
      op := EmitRun(out, op, t - 18);
      Associate(old(out[..start]), [0], Run(t - 18));
    }
  }

  /** Counts up to three literals in the last byte but one. */
  method FoldCount(out: array<byte>, op: nat, t: nat)
    requires 2 <= op <= out.Length && t <= 3
    modifies out
    ensures out[..op] == old(out[..op])[op - 2 := OrLow(old(out[op - 2]), t)]
  {
    out[op - 2] := OrLow(out[op - 2], t);
  }

  /** The literals src[ii..ii + t], counted in the last byte but one or in a header. */
  method EmitLiterals(out: array<byte>, start: nat, src: seq<byte>, ii: nat, t: nat) returns (op: nat)
    requires ii + t <= |src| && start <= out.Length && (t <= 3 ==> t == 0 || 2 <= start)
    requires |AddLits(out[..start], src[ii..ii + t])| <= out.Length
    modifies out
    ensures op <= out.Length && out[..op] == AddLits(old(out[..start]), src[ii..ii + t])
  {
    hide LitHeader;
    op := start;
    if t == 0 { return; }
    if t <= 3 {
      FoldCount(out, op, t);
    } else {
      op := EmitLitHeader(out, op, t);
    }
    op := CopyIn(out, op, src, ii, t);
  }

  /** The primary and, for a far candidate that differs in the fourth byte, the secondary probe. */
  method FindMatch(src: seq<byte>, dict: array<int>, ip: nat) returns (slot: nat, pos: int)
    requires dict.Length == DICT_SIZE && ip + 8 < |src|
    ensures Probe(slot, pos) == Lookup(src, dict[..], ip)
  {
    slot := Hash1(src, ip);
    pos := dict[slot];
    if !Usable(ip, pos) { return slot, -1; }
    if !WorthTrying(src, ip, pos) {
      slot := Hash2(slot);
      pos := dict[slot];
      if !Usable(ip, pos) || !WorthTrying(src, ip, pos) { return slot, -1; }
    }
    if !SameThree(src, ip, pos) { pos := -1; }
  }

  /** The six comparisons behind the first three bytes, then the loop for long matches. */
  method ExtendMatch(src: seq<byte>, ip: nat, pos: nat) returns (len: nat)
    requires pos < ip && ip + 8 < |src| && SameThree(src, ip, pos)
    ensures len == MatchLength(src, ip, pos)
  {
    hide MatchLength, Agree;
    AgreeThree(src, ip, pos);
    AgreeOn(src, ip, pos, 3);
    if src[pos + 3] != src[ip + 3] { return 3; }
    AgreeOn(src, ip, pos, 4);
    if src[pos + 4] != src[ip + 4] { return 4; }
    AgreeOn(src, ip, pos, 5);
    if src[pos + 5] != src[ip + 5] { return 5; }
    AgreeOn(src, ip, pos, 6);
    if src[pos + 6] != src[ip + 6] { return 6; }
    AgreeOn(src, ip, pos, 7);
    if src[pos + 7] != src[ip + 7] { return 7; }
    AgreeOn(src, ip, pos, 8);
    if src[pos + 8] != src[ip + 8] { return 8; }
    len := 9;
    while ip + len < |src| && src[pos + len] == src[ip + len]
      invariant ip + len <= |src|
      invariant Agree(src, ip, pos, len)
    {
      AgreeOn(src, ip, pos, len);
      len := len + 1;
    }
    AgreeOn(src, ip, pos, len);
  }

  /** The first k bytes agree. */
  ghost predicate Agree(src: seq<byte>, ip: nat, pos: nat, k: nat)
    requires pos < ip && ip + k <= |src|
  {
    MatchLength(src, ip, pos) == k + MatchLength(src, ip + k, pos + k)
  }

  lemma AgreeOn(src: seq<byte>, ip: nat, pos: nat, k: nat)
    requires pos < ip && ip + k <= |src| && Agree(src, ip, pos, k)
    ensures if ip + k < |src| && src[ip + k] == src[pos + k] then Agree(src, ip, pos, k + 1)
            else MatchLength(src, ip, pos) == k
  {
  }

  lemma AgreeThree(src: seq<byte>, ip: nat, pos: nat)
    requires pos < ip && ip + 2 < |src| && SameThree(src, ip, pos)
    ensures Agree(src, ip, pos, 3)
  {
    assert Agree(src, ip, pos, 1) && Agree(src, ip, pos, 2);
  }

  /** The match code; M4 distances are counted from 0x4000. */
  method EmitMatch(out: array<byte>, start: nat, dist: nat, length: nat) returns (op: nat)
    requires 1 <= dist <= M4_MAX_OFFSET && 3 <= length
    requires start + |MatchCode(dist, length)| <= out.Length
    modifies out
    ensures op == start + |MatchCode(dist, length)|
    ensures out[..op] == old(out[..start]) + MatchCode(dist, length)
  {
    hide LongOpcode, OffBytes;
    var off: nat, len: nat := dist, length;
    op := start;
    if len <= M2_MAX_LEN && off <= M2_MAX_OFFSET {
      off := off - 1;
      op := Put(out, op, (len - 1) * 32 + (off % 8) * 4);
      op := Put(out, op, off / 8);
      return;
    }
    if off <= M3_MAX_OFFSET {
      off := off - 1;
      op := EmitOpcode(out, op, M3_MARKER, M3_MAX_LEN, len);
    } else {
      off := off - 0x4000;
      op := EmitOpcode(out, op, M4_MARKER + (off / 0x4000) % 2 * 8, M4_MAX_LEN, len);
    }
    op := EmitDistance(out, op, off);
  }

  method EmitDistance(out: array<byte>, start: nat, off: nat) returns (op: nat)
    requires start + 2 <= out.Length
    modifies out
    ensures op == start + 2 && out[..op] == old(out[..start]) + OffBytes(off)
  {
    op := Put(out, start, (off % 64) * 4);
    op := Put(out, op, (off / 64) % 256);
  }

  method EmitOpcode(out: array<byte>, start: nat, marker: byte, maxLen: nat, len: nat) returns (op: nat)
    requires marker % 8 == 0 && 16 <= marker < 64 && 3 <= len
    requires (maxLen == M3_MAX_LEN && marker == M3_MARKER) || (maxLen == M4_MAX_LEN && marker < 32)
    requires start + |LongOpcode(marker, maxLen, len)| <= out.Length
    modifies out
    ensures op == start + |LongOpcode(marker, maxLen, len)|
    ensures out[..op] == old(out[..start]) + LongOpcode(marker, maxLen, len)
  {
    if len <= maxLen {
      op := Put(out, start, marker + len - 2);
    } else {
      op := Put(out, start, marker);
      op := EmitRun(out, op, len - maxLen);
      Associate(old(out[..start]), [marker], Run(len - maxLen));
    }
  }

  lemma RoomForPhrases(src: seq<byte>, p: Parse, capacity: nat)
    requires ValidPhrases(src, p) && |src| + |src| / 16 + 4 <= capacity
    ensures |Encode(p.ps)| <= capacity
  {
    EncodeSize(p.ps);
  }

  /** One accepted match: the literals before it and its code. */
  method EmitPhrase(out: array<byte>, start: nat, src: seq<byte>, ghost p: Parse, ii: nat, ip: nat, pos: nat, len: nat)
    returns (op: nat)
    requires ValidParse(src, p) && ip + 8 < |src| && p.ii == ii && p.ip == ip
    requires Lookup(src, p.dict, ip).pos == pos && len == MatchLength(src, ip, pos)
    requires start <= out.Length && out[..start] == Encode(p.ps)
    requires |src| + |src| / 16 + 4 <= out.Length
    modifies out
    ensures ValidParse(src, Round(src, p))
    ensures op <= out.Length && out[..op] == Encode(Round(src, p).ps)
  {
    hide Lookup, MatchLength, Expand, MatchCode, AddLits, WellFormed, Size, Encode;
    RoundIsValid(src, p);
    LookupIsSound(src, p.dict, ip);
    RoomForPhrases(src, Round(src, p), out.Length);
    PhraseCode(p.ps, src[ii..ip], ip - pos, len);
    op := EmitLiterals(out, start, src, ii, ip - ii);
    op := EmitMatch(out, op, ip - pos, len);
  }

  lemma PhraseCode(ps: Phrases, lits: seq<byte>, off: nat, len: nat)
    requires WellFormed(Phrase(ps, lits, off, len))
    ensures |lits| <= 3 ==> |lits| == 0 || 2 <= |Encode(ps)|
    ensures Encode(Phrase(ps, lits, off, len)) == AddLits(Encode(ps), lits) + MatchCode(off, len)
  {
  }

  /** do_compress: fills the output with the code of the phrases and returns the number of bytes left for
      the tail. */
  method DoCompress(src: seq<byte>, dict: array<int>, out: array<byte>) returns (op: nat, left: nat)
    requires M2_MAX_LEN + 5 < |src| && dict.Length == DICT_SIZE
    requires |src| + |src| / 16 + 4 <= out.Length
    modifies out, dict
    ensures var p := ParseAll(src, old(dict[..]));
            op <= out.Length && out[..op] == Encode(p.ps) && left == |src| - p.ii
  {
    hide Lookup, MatchLength, Expand, Encode, Hash1;
    var ip: nat, ii: nat := 4, 0;
    op := 0;
    ghost var p := Parse(Begin, 0, 4, dict[..]);
    assert out[..op] == Encode(p.ps) && ValidParse(src, p) by { NothingYet(src, dict[..]); }
    while true
      invariant ValidParse(src, p) && p.ii == ii && p.ip == ip && p.dict == dict[..]
      invariant ip + 8 < |src| && op <= out.Length && out[..op] == Encode(p.ps)
      invariant Rounds(src, p) == Rounds(src, Parse(Begin, 0, 4, old(dict[..])))
      decreases |src| - ip
    {
      RoundIsValid(src, p);
      ghost var next := Round(src, p);
      var slot, pos := FindMatch(src, dict, ip);
      dict[slot] := ip;
      if pos < 0 {
        ip := ip + 1;
      } else {
        var len := ExtendMatch(src, ip, pos);
        op := EmitPhrase(out, op, src, p, ii, ip, pos, len);
        ip := ip + len;
        ii := ip;
      }
      p := next;
      if ip + M2_MAX_LEN + 5 >= |src| { break; }
    }
    left := |src| - ii;
  }

  lemma NothingYet(src: seq<byte>, dict: seq<int>)
    requires |dict| == DICT_SIZE && 4 <= |src|
    ensures Encode(Begin) == [] && ValidParse(src, Parse(Begin, 0, 4, dict))
  {
  }

  /** The t bytes that are left over, and the end marker. */
  method EmitTail(out: array<byte>, start: nat, src: seq<byte>, t: nat, ghost ps: Phrases) returns (op: nat)
    requires WellFormed(ps) && t <= |src| && start <= out.Length && out[..start] == Encode(ps)
    requires |Stream(ps, src[|src| - t..])| <= out.Length
    modifies out
    ensures op <= out.Length && out[..op] == Stream(ps, src[|src| - t..])
  {
    hide Encode, AddLits;
    EmptyCode(ps);
    op := start;
    var ii := |src| - t;
    assert src[ii..] == src[ii..ii + t];
    if t > 0 && op == 0 && t <= 238 {
      op := Put(out, op, 17 + t);
      op := CopyIn(out, op, src, ii, t);
    } else {
      op := EmitLiterals(out, op, src, ii, t);
    }
    assert out[..op] == Body(ps, src[ii..]);
    op := EmitEnd(out, op);
  }

  method EmitEnd(out: array<byte>, start: nat) returns (op: nat)
    requires start + 3 <= out.Length
    modifies out
    ensures op == start + 3 && out[..op] == old(out[..start]) + [M4_MARKER + 1, 0, 0]
  {
    op := Put(out, start, M4_MARKER + 1);
    op := Put(out, op, 0);
    op := Put(out, op, 0);
  }

  /** lzo1x_1_compress: the bytes written are the stream of the parse, for any leftover dictionary. */
  method Compress(src: seq<byte>, dict: array<int>, out: array<byte>) returns (outLen: nat)
    requires dict.Length == DICT_SIZE && |src| + |src| / 16 + 4 <= out.Length
    modifies out, dict
    ensures outLen <= |src| + |src| / 16 + 4
    ensures out[..outLen] == Compressed(src, old(dict[..]))
  {
    hide Rounds, Expand, Encode, Size, Stream;
    ghost var p := ParseAll(src, dict[..]);
    StreamSize(p.ps, src[p.ii..]);
    var op: nat, t: nat := 0, |src|;
    if |src| > M2_MAX_LEN + 5 {
      op, t := DoCompress(src, dict, out);
    } else {
      EmptyCode(p.ps);
    }
    outLen := EmitTail(out, op, src, t, p.ps);
  }

  lemma EmptyCode(ps: Phrases)
    requires WellFormed(ps)
    ensures Encode(ps) == [] <==> ps.Begin?
    ensures ps.Phrase? ==> 2 <= |Encode(ps)|
  {
  }
}
