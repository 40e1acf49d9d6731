/** The compressor's streams are programs: its phrase lists translate into instructions with the same bytes and
    the same meaning. */
module LzoStreams {
  import opened Bytes
  import opened LzoFormat
  import opened LzoPrograms

  /** The compressor's choice among the forms of a match. */
  function FormOf(off: nat, len: nat): (form: Form)
    requires 1 <= off <= M4_MAX_OFFSET && 3 <= len
    ensures Fits(form, off, len) && form != M1Near && form != M1Far
  {
    if len <= M2_MAX_LEN && off <= M2_MAX_OFFSET then M2 else if off <= M3_MAX_OFFSET then M3 else M4
  }

  /** The code of a match with a literal count in its last byte but one. */
  function Fold(code: seq<byte>, low: nat): (r: seq<byte>)
    requires low <= 3 && 2 <= |code| && code[|code| - 2] % 4 == 0
    ensures |r| == |code|
  {
    code[|code| - 2 := code[|code| - 2] + low]
  }

  lemma FoldBehind(a: seq<byte>, code: seq<byte>, low: nat)
    requires low <= 3 && 2 <= |code| && code[|code| - 2] % 4 == 0
    ensures Fold(a + code, low) == a + Fold(code, low)
  {
  }

  lemma FoldedDistance(o: nat, low: nat)
    requires low <= 3
    ensures Fold(OffBytes(o), low) == DistanceBytes(o, low)
  {
  }

  lemma M4High(off: nat)
    requires M3_MAX_OFFSET < off <= M4_MAX_OFFSET
    ensures (off - 0x4000) / 0x4000 % 2 == (off - 0x4000) / 0x4000
  {
  }

  /** The compressor's code for a match is the code of the form it chooses. */
  lemma CodeOfMatch(off: nat, len: nat, low: nat)
    requires 1 <= off <= M4_MAX_OFFSET && 3 <= len && low <= 3
    ensures CopyCode(FormOf(off, len), off, len, low) == Fold(MatchCode(off, len), low)
  {
    hide LongOpcode, OffBytes, DistanceBytes;
    if M2_MAX_LEN < len || M2_MAX_OFFSET < off {
      var o := if off <= M3_MAX_OFFSET then off - 1 else off - 0x4000;
      if M3_MAX_OFFSET < off { M4High(off); }
      FoldedDistance(o, low);
      var opcode := if off <= M3_MAX_OFFSET then LongOpcode(M3_MARKER, M3_MAX_LEN, len)
                    else LongOpcode(M4_MARKER + o / 0x4000 % 2 * 8, M4_MAX_LEN, len);
      FoldBehind(opcode, OffBytes(o), low);
    }
  }

  /** Up to three literals behind a code are counted in it. */
  lemma AddFewLits(e: seq<byte>, lits: seq<byte>)
    requires |lits| <= 3 && 2 <= |e| && e[|e| - 2] % 4 == 0
    ensures AddLits(e, lits) == Fold(e, |lits|) + lits
  {
    if lits == [] { assert Fold(e, 0) == e; }
  }

  /** The program for ps with up to three literals and the program p behind it. */
  function Translate(ps: Phrases, few: seq<byte>, p: Program): Program
    requires WellFormed(ps) && ps.Phrase?
    decreases ps
  {
    var repeat := Repeat(FormOf(ps.off, ps.len), ps.off, ps.len, few, p);
    if ps.before.Begin? then Emit(ps.lits, repeat)
    else if |ps.lits| <= 3 then Translate(ps.before, ps.lits, repeat)
    else Translate(ps.before, [], Emit(ps.lits, repeat))
  }

  /** The program q behaves like the bytes e, which expand to text, in front of the program p. */
  ghost predicate InFront(e: seq<byte>, text: seq<byte>, ctx: Context, p: Program, q: Program)
    requires Proper(ctx, |text|, p)
  {
    && Proper(AtLoop, 0, q)
    && Spell(AtLoop, 0, q) == e + Spell(ctx, |text|, p)
    && Meaning(AtLoop, [], q) == Meaning(ctx, text, p)
  }

  /** One match instruction behind a text, in any context, with the program p behind it. */
  lemma RepeatStands(text: seq<byte>, off: nat, len: nat, few: seq<byte>, ctx: Context, p: Program)
    requires 1 <= off <= |text| && off <= M4_MAX_OFFSET && 3 <= len && |few| <= 3
    requires Proper(AfterCopy(few), |text| + len + |few|, p)
    ensures Proper(ctx, |text|, Repeat(FormOf(off, len), off, len, few, p))
    ensures Spell(ctx, |text|, Repeat(FormOf(off, len), off, len, few, p))
         == Fold(MatchCode(off, len), |few|) + few + Spell(AfterCopy(few), |text| + len + |few|, p)
    ensures Meaning(ctx, text, Repeat(FormOf(off, len), off, len, few, p))
         == Meaning(AfterCopy(few), CopyMatch(text, |text| - off, len) + few, p)
  {
    hide CopyMatch, CopyCode, MatchCode, FormOf, Fold;
    CodeOfMatch(off, len, |few|);
  }

  lemma PhraseExpands(ps: Phrases)
    requires WellFormed(ps) && ps.Phrase?
    ensures WellFormed(ps.before) && 1 <= ps.off <= M4_MAX_OFFSET && 3 <= ps.len
    ensures var text := Expand(ps.before) + ps.lits;
            && ps.off <= |text| && Size(ps) == |text| + ps.len
            && Expand(ps) == CopyMatch(text, |text| - ps.off, ps.len)
  {
    hide CopyMatch;
  }

  lemma PhraseEncodes(ps: Phrases, few: seq<byte>)
    requires WellFormed(ps) && ps.Phrase? && |few| <= 3
    ensures WellFormed(ps.before) && (|ps.lits| <= 3 ==> |ps.lits| == 0 || 2 <= |Encode(ps.before)|)
    ensures var code := Fold(MatchCode(ps.off, ps.len), |few|);
            AddLits(Encode(ps), few) == AddLits(Encode(ps.before), ps.lits) + code + few
  {
    EncodeUnfolds(ps);
    hide MatchCode, Fold, AddLits, Encode, WellFormed;
    AddFewLits(Encode(ps), few);
    FoldBehind(AddLits(Encode(ps.before), ps.lits), MatchCode(ps.off, ps.len), |few|);
  }

  lemma EncodeUnfolds(ps: Phrases)
    requires WellFormed(ps) && ps.Phrase?
    ensures WellFormed(ps.before) && 1 <= ps.off <= M4_MAX_OFFSET && 3 <= ps.len
    ensures |ps.lits| <= 3 ==> |ps.lits| == 0 || 2 <= |Encode(ps.before)|
    ensures Encode(ps) == AddLits(Encode(ps.before), ps.lits) + MatchCode(ps.off, ps.len)
  {
    hide MatchCode, AddLits;
  }

  lemma EmitStands(e: seq<byte>, text: seq<byte>, lits: seq<byte>, p: Program)
    requires 4 <= |lits| && Proper(AfterRun, |text| + |lits|, p)
    ensures Proper(AtLoop, |text|, Emit(lits, p))
    ensures e + Spell(AtLoop, |text|, Emit(lits, p)) == AddLits(e, lits) + Spell(AfterRun, |text| + |lits|, p)
    ensures Meaning(AtLoop, text, Emit(lits, p)) == Meaning(AfterRun, text + lits, p)
  {
    hide LitHeader, AddLits, Spell, Meaning, Proper;
    EmitSpells(|text|, lits, p);
    EmitMeans(text, lits, p);
    AddRun(e, lits);
    Associate4(e, LitHeader(|lits|), lits, Spell(AfterRun, |text| + |lits|, p));
  }

  lemma EmitSpells(size: nat, lits: seq<byte>, p: Program)
    requires 4 <= |lits| && Proper(AfterRun, size + |lits|, p)
    ensures Proper(AtLoop, size, Emit(lits, p))
    ensures Spell(AtLoop, size, Emit(lits, p)) == LitHeader(|lits|) + lits + Spell(AfterRun, size + |lits|, p)
  {
    hide LitHeader;
  }

  lemma EmitMeans(text: seq<byte>, lits: seq<byte>, p: Program)
    requires 4 <= |lits| && Proper(AfterRun, |text| + |lits|, p) && Proper(AtLoop, |text|, Emit(lits, p))
    ensures Meaning(AtLoop, text, Emit(lits, p)) == Meaning(AfterRun, text + lits, p)
  {
    hide CopyMatch;
  }

  lemma Associate4(a: seq<byte>, b: seq<byte>, c: seq<byte>, d: seq<byte>)
    ensures a + (b + c + d) == a + b + c + d
  {
  }

  lemma AddRun(e: seq<byte>, lits: seq<byte>)
    requires 4 <= |lits|
    ensures AddLits(e, lits) == e + LitHeader(|lits|) + lits
  {
    hide LitHeader;
  }

  /** A translation has the bytes and the meaning of the phrases. */
  lemma {:induction false} TranslationStands(ps: Phrases, few: seq<byte>, p: Program)
    requires WellFormed(ps) && ps.Phrase? && |few| <= 3
    requires Proper(AfterCopy(few), Size(ps) + |few|, p)
    ensures InFront(AddLits(Encode(ps), few), Expand(ps) + few, AfterCopy(few), p, Translate(ps, few, p))
    decreases ps
  {
    hide CopyMatch, CopyCode, MatchCode, FormOf, Fold, LitHeader, AddLits, Encode, Expand, Proper, Spell, Meaning, Size;
    hide InFront;
    var before, lits := ps.before, ps.lits;
    var repeat := Repeat(FormOf(ps.off, ps.len), ps.off, ps.len, few, p);
    var code, text := Fold(MatchCode(ps.off, ps.len), |few|), Expand(before) + lits;
    var e, q := AddLits(Encode(before), lits), Translate(ps, few, p);
    PhraseEncodes(ps, few);
    PhraseExpands(ps);
    if before.Phrase? && |lits| <= 3 {
      RepeatStands(text, ps.off, ps.len, few, AfterCopy(lits), p);
      TranslationStands(before, lits, repeat);
      Replaced(e, text, AfterCopy(lits), repeat, q, code + few, Expand(ps) + few, AfterCopy(few), p);
    } else {
      RepeatStands(text, ps.off, ps.len, few, AfterRun, p);
      EmitStands(Encode(before), Expand(before), lits, repeat);
      if before.Begin? {
        NothingBefore();
        NothingInFront(Emit(lits, repeat));
      } else {
        NothingAdded(Encode(before), Expand(before));
        TranslationStands(before, [], Emit(lits, repeat));
      }
      EmitReplaced(Encode(before), Expand(before), lits, repeat, q);
      Replaced(e, text, AfterRun, repeat, q, code + few, Expand(ps) + few, AfterCopy(few), p);
    }
    assert e + (code + few) == e + code + few;
  }

  lemma NothingInFront(q: Program)
    requires Proper(AtLoop, 0, q)
    ensures InFront([], [], AtLoop, q, q)
  {
  }

  /** The program behind e replaced by its own first bytes and what follows them. */
  lemma Replaced(
    e: seq<byte>, text: seq<byte>, ctx: Context, p: Program, q: Program,
    e': seq<byte>, text': seq<byte>, ctx': Context, p': Program)
    requires Proper(ctx, |text|, p) && Proper(ctx', |text'|, p') && InFront(e, text, ctx, p, q)
    requires Spell(ctx, |text|, p) == e' + Spell(ctx', |text'|, p')
    requires Meaning(ctx, text, p) == Meaning(ctx', text', p')
    ensures InFront(e + e', text', ctx', p', q)
  {
    hide Proper, Spell, Meaning;
    assert e + e' + Spell(ctx', |text'|, p') == e + (e' + Spell(ctx', |text'|, p'));
  }

  lemma EmitReplaced(e: seq<byte>, text: seq<byte>, lits: seq<byte>, p: Program, q: Program)
    requires 4 <= |lits| && Proper(AfterRun, |text + lits|, p) && Proper(AtLoop, |text|, Emit(lits, p))
    requires InFront(e, text, AtLoop, Emit(lits, p), q)
    ensures InFront(AddLits(e, lits), text + lits, AfterRun, p, q)
  {
    EmitStands(e, text, lits, p);
    hide Proper, Spell, Meaning, AddLits;
  }

  lemma NothingBefore()
    ensures Encode(Begin) == [] && Expand(Begin) == [] && Size(Begin) == 0
  {
  }

  lemma NothingAdded(e: seq<byte>, text: seq<byte>)
    ensures AddLits(e, []) == e && text + [] == text
  {
  }

  /** The source of the stream that the compressor writes for phrases and a tail. */
  function SourceOf(ps: Phrases, tail: seq<byte>): Source
    requires WellFormed(ps)
  {
    var stop := Stop(3, 0);
    if ps.Begin? then
      if tail == [] then Plain(stop) else if |tail| <= 238 then First(tail, stop) else Plain(Emit(tail, stop))
    else if |tail| <= 3 then Plain(Translate(ps, tail, stop))
    else Plain(Translate(ps, [], Emit(tail, stop)))
  }

  /** Every stream of the compressor is the spelling of a proper source with the same meaning. */
  lemma StreamIsSpelled(ps: Phrases, tail: seq<byte>)
    requires WellFormed(ps)
    ensures ProperSource(SourceOf(ps, tail))
    ensures SourceSpell(SourceOf(ps, tail)) == Stream(ps, tail)
    ensures SourceMeaning(SourceOf(ps, tail)) == Expand(ps) + tail
  {
    hide Encode, Expand, AddLits, LitHeader, CopyCode, Size;
    var stop := Stop(3, 0);
    assert EndCode(3, 0) == [M4_MARKER + 1, 0, 0];
    if ps.Begin? {
      NothingBefore();
      NothingAdded([], tail);
      if |tail| > 238 { EmitStands([], [], tail, stop); }
    } else if |tail| <= 3 {
      TranslationStands(ps, tail, stop);
      TranslationEmits(ps, tail, stop);
    } else {
      EmitStands(Encode(ps), Expand(ps), tail, stop);
      NothingAdded(Encode(ps), Expand(ps));
      TranslationStands(ps, [], Emit(tail, stop));
      TranslationEmits(ps, [], Emit(tail, stop));
    }
  }

  /** The first phrase starts with literals. */
  lemma {:induction false} TranslationEmits(ps: Phrases, few: seq<byte>, p: Program)
    requires WellFormed(ps) && ps.Phrase?
    ensures Translate(ps, few, p).Emit?
    decreases ps
  {
    if ps.before.Phrase? {
      var repeat := Repeat(FormOf(ps.off, ps.len), ps.off, ps.len, few, p);
      if |ps.lits| <= 3 { TranslationEmits(ps.before, ps.lits, repeat); }
      else { TranslationEmits(ps.before, [], Emit(ps.lits, repeat)); }
    }
  }

  /** The compressor's code for a match is the shortest that the format has for it where matches of any kind may
      stand. */
  lemma MatchCodeIsShortest(form: Form, off: nat, len: nat, low: nat)
    requires Fits(form, off, len) && form != M1Near && form != M1Far && low <= 3
    ensures |MatchCode(off, len)| <= |CopyCode(form, off, len, low)|
  {
    hide Run;
  }
}
