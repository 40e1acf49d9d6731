/** What the compressor's search finds, and what it makes of a text of one repeated byte. */
module LzoSearch {
  import opened Bytes
  import opened LzoFormat
  import opened LzoCompress

  // ----- the hash functions

  /** The primary hash without the multiplication: the xor x of the shifted bytes gives x + x / 32, cut to the
      size of the dictionary. */
  lemma Hash1IsSum(src: seq<byte>, p: nat)
    requires p + 3 < |src|
    ensures var low := ((src[p + 1] as bv32) << 5) ^ (src[p] as bv32);
            var x := (((src[p + 3] as bv32) << 16) ^ ((src[p + 2] as bv32) << 10) ^ low) as int;
            Hash1(src, p) == (x + x / 32) % 0x4000
  {
  }

  /** The fields of the secondary hash: a high bit, the upper six of eleven bits, and the lowest five
      flipped. */
  lemma Hash2Fields(d: nat)
    ensures Hash2(d) / 0x800 == 4
    ensures Hash2(d) % 0x800 / 32 == d % 0x800 / 32
    ensures Hash2(d) % 32 == 31 - d % 32
  {
  }

  // ----- the search

  /** The entry is a position before ip in the range of the format, near or with the same fourth byte. */
  predicate IsCandidate(src: seq<byte>, ip: nat, entry: int)
    requires ip + 3 < |src|
  {
    0 <= entry && 1 <= ip - entry <= 0xbfff && (ip - entry <= 0x800 || src[entry + 3] == src[ip + 3])
  }

  lemma SameThreeIsSlice(src: seq<byte>, ip: nat, pos: nat)
    requires pos < ip && ip + 2 < |src|
    ensures SameThree(src, ip, pos) <==> src[pos..pos + 3] == src[ip..ip + 3]
  {
    var a, b := src[pos..pos + 3], src[ip..ip + 3];
    assert a[0] == src[pos] && a[1] == src[pos + 1] && a[2] == src[pos + 2];
    assert b[0] == src[ip] && b[1] == src[ip + 1] && b[2] == src[ip + 2];
  }

  /** A candidate in the primary slot decides alone: it is the match exactly when its first three bytes are
      those at ip. */
  lemma PrimaryDecides(src: seq<byte>, dict: seq<int>, ip: nat)
    requires |dict| == DICT_SIZE && ip + 8 < |src| && IsCandidate(src, ip, dict[Hash1(src, ip)])
    ensures var slot := Hash1(src, ip);
            var found := src[dict[slot]..dict[slot] + 3] == src[ip..ip + 3];
            Lookup(src, dict, ip) == Probe(slot, if found then dict[slot] else -1)
  {
    hide Hash1, Hash2, SameThree;
    SameThreeIsSlice(src, ip, dict[Hash1(src, ip)]);
  }

  /** A far position in the primary slot with another fourth byte leaves the decision to the secondary slot. */
  lemma SecondaryDecides(src: seq<byte>, dict: seq<int>, ip: nat)
    requires |dict| == DICT_SIZE && ip + 8 < |src|
    requires var far := dict[Hash1(src, ip)];
             0 <= far && 0x800 < ip - far <= 0xbfff && src[far + 3] != src[ip + 3]
    ensures var slot := Hash2(Hash1(src, ip));
            var found := IsCandidate(src, ip, dict[slot]) && src[dict[slot]..dict[slot] + 3] == src[ip..ip + 3];
            Lookup(src, dict, ip) == Probe(slot, if found then dict[slot] else -1)
  {
    hide Hash1, Hash2, SameThree;
    var slot := Hash2(Hash1(src, ip));
    if IsCandidate(src, ip, dict[slot]) { SameThreeIsSlice(src, ip, dict[slot]); }
  }

  /** Any other entry in the primary slot is no position of this text, and nothing is found. */
  lemma OthersAreIgnored(src: seq<byte>, dict: seq<int>, ip: nat)
    requires |dict| == DICT_SIZE && ip + 8 < |src|
    requires var entry := dict[Hash1(src, ip)]; entry < 0 || entry >= ip || ip - entry > 0xbfff
    ensures Lookup(src, dict, ip) == Probe(Hash1(src, ip), -1)
  {
    hide Hash1, Hash2;
  }

  /** After every round the slot that was used last holds the position just tried, and the others are as they
      were. */
  lemma RoundEntersPosition(src: seq<byte>, p: Parse)
    requires |p.dict| == DICT_SIZE && p.ii <= p.ip && p.ip + 8 < |src|
    ensures var slot, next := Lookup(src, p.dict, p.ip).slot, Round(src, p).dict;
            && (slot == Hash1(src, p.ip) || slot == Hash2(Hash1(src, p.ip)))
            && next[slot] == p.ip && forall i :: 0 <= i < DICT_SIZE && i != slot ==> next[i] == p.dict[i]
  {
    hide Hash1, Hash2, MatchLength;
  }

  // ----- whole texts

  /** Texts of up to 13 bytes are one run of literals. */
  lemma ShortTextsAreLiteral(src: seq<byte>, dict: seq<int>)
    requires |dict| == DICT_SIZE && 1 <= |src| <= 13
    ensures Compressed(src, dict) == [17 + |src|] + src + [17, 0, 0]
  {
    hide Rounds;
    assert src[0..] == src;
  }

  function Repeated(b: byte, n: nat): (s: seq<byte>)
    ensures |s| == n && forall i :: 0 <= i < n ==> s[i] == b
  {
    seq(n, _ => b)
  }

  lemma {:induction false} MatchToTheEnd(b: byte, n: nat, ip: nat, pos: nat)
    requires pos < ip <= n
    ensures MatchLength(Repeated(b, n), ip, pos) == n - ip
    decreases n - ip
  {
    if ip < n { MatchToTheEnd(b, n, ip + 1, pos + 1); }
  }

  lemma OneHash(b: byte, n: nat, p: nat, q: nat)
    requires p + 3 < n && q + 3 < n
    ensures Hash1(Repeated(b, n), p) == Hash1(Repeated(b, n), q)
  {
    hide HashOf;
  }

  lemma EqualSlices(b: byte, n: nat, p: nat, q: nat)
    requires p + 3 <= n && q + 3 <= n
    ensures Repeated(b, n)[p..p + 3] == Repeated(b, n)[q..q + 3]
  {
  }

  /** One phrase: k literals, and a match to the end. */
  function OnePhrase(b: byte, n: nat, k: nat, off: nat): Phrases
    requires 4 <= k <= n
  {
    Phrase(Begin, Repeated(b, n)[..k], off, n - k)
  }

  /** The first position is matched if the dictionary happens to hold an earlier one. */
  lemma FirstRound(b: byte, n: nat, dict: seq<int>)
    requires |dict| == DICT_SIZE && 14 <= n
    ensures var src := Repeated(b, n);
            var entry := dict[Hash1(src, 4)];
            var p := Round(src, Parse(Begin, 0, 4, dict));
            if 0 <= entry < 4 then p.ps == OnePhrase(b, n, 4, 4 - entry) && p.ip == p.ii == n
            else p == Parse(Begin, 0, 5, dict[Hash1(src, 4) := 4])
  {
    hide Hash1, Hash2, MatchLength, Lookup;
    var src := Repeated(b, n);
    var entry := dict[Hash1(src, 4)];
    if 0 <= entry < 4 {
      PrimaryDecides(src, dict, 4);
      EqualSlices(b, n, entry, 4);
      MatchToTheEnd(b, n, 4, entry);
      assert src[0..4] == src[..4];
    } else {
      OthersAreIgnored(src, dict, 4);
    }
  }

  /** The second position is matched with the first, which the first round has entered. */
  lemma SecondRound(b: byte, n: nat, dict: seq<int>)
    requires |dict| == DICT_SIZE && 19 <= n && dict[Hash1(Repeated(b, n), 4)] == 4
    ensures var p := Round(Repeated(b, n), Parse(Begin, 0, 5, dict));
            p.ps == OnePhrase(b, n, 5, 1) && p.ip == p.ii == n
  {
    hide Hash1, Hash2, MatchLength, Lookup;
    var src := Repeated(b, n);
    OneHash(b, n, 4, 5);
    PrimaryDecides(src, dict, 5);
    EqualSlices(b, n, 4, 5);
    MatchToTheEnd(b, n, 5, 4);
    assert src[0..5] == src[..5];
  }

  lemma RoundsUnfold(src: seq<byte>, p: Parse)
    requires |p.dict| == DICT_SIZE && p.ii <= p.ip && p.ip + 8 < |src|
    ensures var q := Round(src, p); Rounds(src, p) == if q.ip + 13 >= |src| then q else Rounds(src, q)
  {
    hide Round;
  }

  /** A text of one repeated byte, n times, is a short literal run and one match, from 19 bytes on. */
  lemma RepeatedByteParse(b: byte, n: nat, dict: seq<int>)
    requires |dict| == DICT_SIZE && 14 <= n
    ensures var src := Repeated(b, n);
            var entry, p := dict[Hash1(src, 4)], ParseAll(src, dict);
            if 0 <= entry < 4 then p.ps == OnePhrase(b, n, 4, 4 - entry) && p.ii == n
            else if n < 19 then p.ps == Begin && p.ii == 0
            else p.ps == OnePhrase(b, n, 5, 1) && p.ii == n
  {
    hide Hash1, Round, Rounds, ValidPhrases;
    var src := Repeated(b, n);
    var start := Parse(Begin, 0, 4, dict);
    FirstRound(b, n, dict);
    RoundsUnfold(src, start);
    var next := dict[Hash1(src, 4) := 4];
    if !(0 <= dict[Hash1(src, 4)] < 4) && 19 <= n {
      SecondRound(b, n, next);
      RoundsUnfold(src, Parse(Begin, 0, 5, next));
    }
  }

  /** The size of such a phrase. */
  lemma OnePhraseSize(b: byte, n: nat, k: nat, off: nat)
    requires 4 <= k <= 5 && 10 <= n - k && 1 <= off <= 4
    ensures WellFormed(OnePhrase(b, n, k, off))
    ensures |Encode(OnePhrase(b, n, k, off))| <= 1 + k + 3 + (n - k + 221) / 255
  {
    hide Run;
  }

  lemma OnePhraseCode(b: byte, n: nat)
    requires 19 <= n
    ensures WellFormed(OnePhrase(b, n, 5, 1))
    ensures Encode(OnePhrase(b, n, 5, 1)) == [2] + Repeated(b, 5) + MatchCode(1, n - 5)
  {
    hide MatchCode;
    assert Repeated(b, n)[..5] == Repeated(b, 5);
    assert AddLits([], Repeated(b, 5)) == [] + LitHeader(5) + Repeated(b, 5);
    assert LitHeader(5) == [2];
  }

  /** Whatever the dictionary holds, repetition is found: a text of n equal bytes takes about a byte in 255, with
      the exception of up to 18 bytes, which may be left as literals. */
  lemma RepetitionIsCompressed(b: byte, n: nat, dict: seq<int>)
    requires |dict| == DICT_SIZE && 14 <= n
    ensures |Compressed(Repeated(b, n), dict)| <= if n < 19 then n + 4 else n / 255 + 13
  {
    hide ParseAll, Encode, WellFormed, Hash1;
    var src := Repeated(b, n);
    var entry, p := dict[Hash1(src, 4)], ParseAll(src, dict);
    RepeatedByteParse(b, n, dict);
    if 0 <= entry < 4 {
      OnePhraseSize(b, n, 4, 4 - entry);
    } else if 19 <= n {
      OnePhraseSize(b, n, 5, 1);
    }
  }

  /** With a dictionary of no use, 14 to 18 equal bytes are left as literals, and more are five literals and a
      match at distance 1. */
  lemma RepetitionWithoutHistory(b: byte, n: nat, dict: seq<int>)
    requires |dict| == DICT_SIZE && 14 <= n && forall i :: 0 <= i < DICT_SIZE ==> dict[i] < 0
    ensures Compressed(Repeated(b, n), dict)
         == if n < 19 then [17 + n] + Repeated(b, n) + [17, 0, 0]
            else [2] + Repeated(b, 5) + MatchCode(1, n - 5) + [17, 0, 0]
  {
    hide ParseAll, WellFormed, Hash1, MatchCode, Encode, Repeated;
    var src := Repeated(b, n);
    var p := ParseAll(src, dict);
    RepeatedByteParse(b, n, dict);
    assert src[0..] == src && src[n..] == [];
    if 19 <= n { OnePhraseCode(b, n); }
  }

  lemma BodyOfLiterals(tail: seq<byte>)
    ensures Body(Begin, tail)
         == if tail == [] then [] else if |tail| <= 238 then [17 + |tail|] + tail
            else [0] + Run(|tail| - 18) + tail
  {
    hide Run, LitHeader;
    if |tail| > 238 {
      LongHeader(|tail|);
      assert [] + LitHeader(|tail|) == LitHeader(|tail|);
    }
  }

  lemma LongHeader(n: nat)
    requires 18 < n
    ensures LitHeader(n) == [0] + Run(n - 18)
  {
    hide Run;
  }

  /** A text without phrases: up to 238 literals are announced in the first byte of the stream, and more have the
      header of a literal run. */
  lemma LiteralsOnly(tail: seq<byte>)
    ensures Stream(Begin, tail)
         == (if tail == [] then [] else if |tail| <= 238 then [17 + |tail|] + tail
             else [0] + Run(|tail| - 18) + tail) + [17, 0, 0]
  {
    hide Run, Body;
    BodyOfLiterals(tail);
  }
}
