/** The safe decompressor accepts exactly the streams that spell a program, and computes its meaning. */
module LzoAccepted {
  import opened Bytes
  import opened LzoFormat
  import opened LzoMachine
  import opened LzoDecoding
  import opened LzoPrograms

  /** The machine in front of an instruction. */
  function StateAt(j: Job, ctx: Context, ip: nat, out: seq<byte>): State {
    match ctx
    case AtLoop => Loop(ip, out)
    case AfterRun => FirstLiteralRun(ip, out)
    case AfterFew => Match(j.mem(ip), ip + 1, out)
  }

  lemma AtOpcode(j: Job, ctx: Context, ip: nat, out: seq<byte>)
    requires 1 <= j.n && ip < j.n && |out| <= j.cap && 16 <= j.mem(ip)
    ensures Valid(j, StateAt(j, ctx, ip, out)) && Valid(j, Match(j.mem(ip), ip + 1, out))
    ensures RunFrom(j, StateAt(j, ctx, ip, out)) == RunFrom(j, Match(j.mem(ip), ip + 1, out))
  {
    hide RunFrom, StepMatch, StepMatchNext, StepCopy, StepMatchDone, StepLiterals;
    if !ctx.AfterFew? { Advance(j, StateAt(j, ctx, ip, out), Match(j.mem(ip), ip + 1, out)); }
  }

  // ----- what is spelled is decoded

  lemma DistanceBytesDecode(mem: Memory, ip: nat, o: nat, low: nat)
    requires low <= 3 && Holds(mem, ip, DistanceBytes(o, low))
    ensures Distance14(mem, ip) == o % 0x4000
  {
    var d := DistanceBytes(o, low);
    assert mem(ip + 0) == d[0] && mem(ip + 1) == d[1];
    Quarter(o % 64, low);
    Fields14(o);
  }

  /** An opcode with its length, and the two distance bytes behind it. */
  lemma LongParts(mem: Memory, ip: nat, opcode: seq<byte>, o: nat, low: nat)
    requires low <= 3 && Holds(mem, ip, opcode + DistanceBytes(o, low))
    ensures Holds(mem, ip, opcode) && Distance14(mem, ip + |opcode|) == o % 0x4000
  {
    hide DistanceBytes;
    HoldsPart(mem, ip, opcode + DistanceBytes(o, low), 0, opcode);
    HoldsPart(mem, ip, opcode + DistanceBytes(o, low), |opcode|, DistanceBytes(o, low));
    DistanceBytesDecode(mem, ip + |opcode|, o, low);
  }

  lemma ShortFields(q: nat, low: nat)
    requires low <= 3
    ensures (q % 4 * 4 + low) / 4 == q % 4 && q % 4 + q / 4 * 4 == q
  {
  }

  lemma M1NearDecodes(j: Job, off: nat, low: nat, ip: nat, out: seq<byte>)
    requires Fits(M1Near, off, 2) && low <= 3 && Holds(j.mem, ip, CopyCode(M1Near, off, 2, low))
    requires Valid(j, Match(j.mem(ip), ip + 1, out))
    ensures StepMatch(j, j.mem(ip), ip + 1, out) == State.Copy(off, 2, ip + 2, out)
  {
    hide ReadRun, StepM4;
    var code := CopyCode(M1Near, off, 2, low);
    assert j.mem(ip + 0) == code[0] && j.mem(ip + 1) == code[1];
    ShortFields(off - 1, low);
  }

  lemma M1FarDecodes(j: Job, off: nat, low: nat, ip: nat, out: seq<byte>)
    requires Fits(M1Far, off, 3) && low <= 3 && Holds(j.mem, ip, CopyCode(M1Far, off, 3, low))
    requires Valid(j, FirstLiteralRun(ip, out))
    ensures StepFirstLiteralRun(j, ip, out) == State.Copy(off, 3, ip + 2, out)
  {
    var code := CopyCode(M1Far, off, 3, low);
    assert j.mem(ip + 0) == code[0] && j.mem(ip + 1) == code[1];
    ShortFields(off - 1 - M2_MAX_OFFSET, low);
  }

  lemma M2CodeDecodes(j: Job, off: nat, len: nat, low: nat, ip: nat, out: seq<byte>)
    requires Fits(M2, off, len) && low <= 3 && Holds(j.mem, ip, CopyCode(M2, off, len, low))
    requires Valid(j, Match(j.mem(ip), ip + 1, out))
    ensures StepMatch(j, j.mem(ip), ip + 1, out) == State.Copy(off, len, ip + 2, out)
  {
    hide ReadRun, StepM4;
    var code := CopyCode(M2, off, len, low);
    assert j.mem(ip + 0) == code[0] && j.mem(ip + 1) == code[1];
    M2Fields(len - 1, (off - 1) % 8, low);
  }

  lemma M3CodeDecodes(j: Job, off: nat, len: nat, low: nat, ip: nat, out: seq<byte>)
    requires Fits(M3, off, len) && low <= 3 && Holds(j.mem, ip, CopyCode(M3, off, len, low))
    requires Valid(j, Match(j.mem(ip), ip + 1, out)) && ip + |CopyCode(M3, off, len, low)| <= j.n
    ensures StepMatch(j, j.mem(ip), ip + 1, out) == State.Copy(off, len, ip + |CopyCode(M3, off, len, low)|, out)
  {
    hide StepM4, ReadRun, Distance14;
    var opcode := LongOpcode(M3_MARKER, M3_MAX_LEN, len);
    LongParts(j.mem, ip, opcode, off - 1, low);
    LongOpcodeDecodes(j, M3_MARKER, M3_MAX_LEN, len, ip);
  }

  lemma M4CodeDecodes(j: Job, off: nat, len: nat, low: nat, ip: nat, out: seq<byte>)
    requires Fits(M4, off, len) && low <= 3 && Holds(j.mem, ip, CopyCode(M4, off, len, low))
    requires Valid(j, Match(j.mem(ip), ip + 1, out)) && ip + |CopyCode(M4, off, len, low)| <= j.n
    ensures StepMatch(j, j.mem(ip), ip + 1, out) == State.Copy(off, len, ip + |CopyCode(M4, off, len, low)|, out)
  {
    hide ReadRun, Distance14, StepMatch, DistanceBytes, LongOpcode;
    var o := off - 0x4000;
    var high := o / 0x4000;
    var opcode := LongOpcode(M4_MARKER + high * 8, M4_MAX_LEN, len);
    LongParts(j.mem, ip, opcode, o, low);
    LongOpcodeDecodes(j, M4_MARKER + high * 8, M4_MAX_LEN, len, ip);
    OpcodeSize(M4_MARKER + high * 8, M4_MAX_LEN, len);
    M4Step(j, high, if len <= M4_MAX_LEN then len - 2 else 0, len, ip + 1, |opcode|, out);
    assert high * 0x4000 + o % 0x4000 == o;
  }

  lemma OpcodeSize(marker: byte, maxLen: nat, len: nat)
    requires marker % 8 == 0 && 16 <= marker < 64 && 3 <= len
    requires (maxLen == M3_MAX_LEN && marker == M3_MARKER) || (maxLen == M4_MAX_LEN && marker < 32)
    ensures |LongOpcode(marker, maxLen, len)| == if len <= maxLen then 1 else 1 + |Run(len - maxLen)|
  {
  }

  /** Every form decodes to its match, where it is allowed. */
  lemma CodeDecodes(j: Job, ctx: Context, form: Form, off: nat, len: nat, low: nat, ip: nat, out: seq<byte>)
    requires Allowed(ctx, form) && Fits(form, off, len) && low <= 3 && |out| <= j.cap
    requires Holds(j.mem, ip, CopyCode(form, off, len, low)) && ip + |CopyCode(form, off, len, low)| <= j.n
    ensures var copy := State.Copy(off, len, ip + |CopyCode(form, off, len, low)|, out);
            && Valid(j, StateAt(j, ctx, ip, out)) && Valid(j, copy)
            && RunFrom(j, StateAt(j, ctx, ip, out)) == RunFrom(j, copy)
  {
    hide RunFrom, CopyCode, StepMatch, StepFirstLiteralRun, Advances;
    var code := CopyCode(form, off, len, low);
    var copy := State.Copy(off, len, ip + |code|, out);
    CodeSize(form, off, len, low);
    assert j.mem(ip + 0) == code[0];
    if form.M1Far? {
      M1FarDecodes(j, off, low, ip, out);
      Advance(j, FirstLiteralRun(ip, out), copy);
    } else {
      if form.M1Near? {
        M1NearDecodes(j, off, low, ip, out);
      } else {
        AtOpcode(j, ctx, ip, out);
        if form.M2? { M2CodeDecodes(j, off, len, low, ip, out); }
        else if form.M3? { M3CodeDecodes(j, off, len, low, ip, out); }
        else { M4CodeDecodes(j, off, len, low, ip, out); }
      }
      Advance(j, Match(j.mem(ip), ip + 1, out), copy);
    }
  }

  lemma CodeSize(form: Form, off: nat, len: nat, low: nat)
    requires Fits(form, off, len) && low <= 3
    ensures form.M1Near? || form.M1Far? || form.M2? ==> |CopyCode(form, off, len, low)| == 2
  {
    hide LongOpcode, DistanceBytes;
  }

  /** The end marker in any of its spellings. */
  lemma StopDecodes(j: Job, ctx: Context, len: nat, low: nat, ip: nat, out: seq<byte>)
    requires 3 <= len && low <= 3 && |out| <= j.cap
    requires Holds(j.mem, ip, EndCode(len, low)) && ip + |EndCode(len, low)| == j.n
    ensures Valid(j, StateAt(j, ctx, ip, out))
    ensures RunFrom(j, StateAt(j, ctx, ip, out)) == Halt(Ok, j.n, out)
  {
    hide StepLoop, StepFirstLiteralRun, StepMatch, StepMatchNext, StepMatchDone, StepCopy, StepLiterals;
    hide RunFrom, EndCode;
    assert j.mem(ip + 0) == EndCode(len, low)[0];
    AtOpcode(j, ctx, ip, out);
    StopStep(j, len, low, ip, out);
    Advance(j, Match(j.mem(ip), ip + 1, out), Halt(Ok, j.n, out));
    HaltStays(j, out);
  }

  lemma StopStep(j: Job, len: nat, low: nat, ip: nat, out: seq<byte>)
    requires 3 <= len && low <= 3 && 1 <= j.n && |out| <= j.cap
    requires Holds(j.mem, ip, EndCode(len, low)) && ip + |EndCode(len, low)| == j.n
    ensures Valid(j, Match(j.mem(ip), ip + 1, out))
    ensures StepMatch(j, j.mem(ip), ip + 1, out) == Halt(Ok, j.n, out)
  {
    hide LongOpcode, ReadRun, Distance14, StepMatch, EndCode, Holds;
    var opcode := LongOpcode(M4_MARKER, M4_MAX_LEN, len);
    EndParts(j.mem, len, low, ip);
    NoDistance(j.mem, ip + |opcode|, low);
    LongOpcodeDecodes(j, M4_MARKER, M4_MAX_LEN, len, ip);
    OpcodeSize(M4_MARKER, M4_MAX_LEN, len);
    M4Step(j, 0, if len <= M4_MAX_LEN then len - 2 else 0, len, ip + 1, |opcode|, out);
  }

  lemma EndParts(mem: Memory, len: nat, low: nat, ip: nat)
    requires 3 <= len && low <= 3 && Holds(mem, ip, EndCode(len, low))
    ensures var opcode := LongOpcode(M4_MARKER, M4_MAX_LEN, len);
            && |EndCode(len, low)| == |opcode| + 2
            && Holds(mem, ip, opcode) && Holds(mem, ip + |opcode|, [low, 0])
  {
    hide LongOpcode, Holds;
    var opcode := LongOpcode(M4_MARKER, M4_MAX_LEN, len);
    HoldsPart(mem, ip, opcode + [low, 0], 0, opcode);
    HoldsPart(mem, ip, opcode + [low, 0], |opcode|, [low, 0]);
  }

  lemma NoDistance(mem: Memory, ip: nat, low: nat)
    requires low <= 3 && Holds(mem, ip, [low, 0])
    ensures Distance14(mem, ip) == 0
  {
    var tail: seq<byte> := [low, 0];
    assert mem(ip + 0) == tail[0] && mem(ip + 1) == tail[1];
  }

  lemma HaltStays(j: Job, out: seq<byte>)
    requires 1 <= j.n && |out| <= j.cap
    ensures RunFrom(j, Halt(Ok, j.n, out)) == Halt(Ok, j.n, out)
  {
  }

  lemma EmitDecodes(j: Job, ip: nat, out: seq<byte>, lits: seq<byte>)
    requires 4 <= |lits| && |out| + |lits| <= j.cap && 1 <= j.n
    requires Holds(j.mem, ip, LitHeader(|lits|)) && Holds(j.mem, ip + |LitHeader(|lits|)|, lits)
    requires ip + |LitHeader(|lits|)| + |lits| < j.n
    ensures var ip' := ip + |LitHeader(|lits|)| + |lits|;
            Valid(j, FirstLiteralRun(ip', out + lits))
            && RunFrom(j, Loop(ip, out)) == RunFrom(j, FirstLiteralRun(ip', out + lits))
  {
    hide Step, RunFrom, LitHeader;
    var n := |lits|;
    var at := ip + |LitHeader(n)|;
    HeaderDecodes(j, ip, out, n);
    Advance(j, Loop(ip, out), State.Literals(n - 3, at, out));
    LiteralRunDecodes(j, at, out, lits);
    Advance(j, State.Literals(n - 3, at, out), FirstLiteralRun(at + n, out + lits));
  }

  /** Behind a match: no literals, or up to three that its code counts. */
  lemma AfterCopyDecodes(j: Job, ip: nat, out: seq<byte>, lits: seq<byte>)
    requires 2 <= ip && |lits| <= 3 && |out| + |lits| <= j.cap && 1 <= j.n
    requires j.mem(ip - 2) % 4 == |lits| && Holds(j.mem, ip, lits) && ip + |lits| + 1 < j.n
    ensures Valid(j, StateAt(j, AfterCopy(lits), ip + |lits|, out + lits))
    ensures RunFrom(j, MatchDone(ip, out)) == RunFrom(j, StateAt(j, AfterCopy(lits), ip + |lits|, out + lits))
  {
    hide RunFrom, StepMatch, StepLoop, StepCopy;
    if lits == [] {
      assert out + lits == out;
      Advance(j, MatchDone(ip, out), Loop(ip, out));
    } else {
      FewLiteralsDecode(j, ip, out, lits);
    }
  }

  /** The parts of a spelled match instruction. */
  lemma RepeatParts(mem: Memory, ip: nat, code: seq<byte>, lits: seq<byte>, rest: seq<byte>)
    requires Holds(mem, ip, code + lits + rest) && 2 <= |code|
    ensures Holds(mem, ip, code) && Holds(mem, ip + |code|, lits) && Holds(mem, ip + |code| + |lits|, rest)
    ensures mem(ip + |code| - 2) == code[|code| - 2]
  {
    var all := code + lits + rest;
    HoldsPart(mem, ip, all, 0, code);
    HoldsPart(mem, ip, all, |code|, lits);
    HoldsPart(mem, ip, all, |code| + |lits|, rest);
    assert mem(ip + (|code| - 2)) == code[|code| - 2];
  }

  /** One match instruction, with tail behind it. */
  lemma RepeatRuns(
    j: Job, ctx: Context, ip: nat, out: seq<byte>,
    form: Form, off: nat, len: nat, lits: seq<byte>, tail: seq<byte>)
    requires 1 <= j.n && Allowed(ctx, form) && Fits(form, off, len) && off <= |out| && |lits| <= 3
    requires |out| + len + |lits| <= j.cap && 3 <= |tail|
    requires Holds(j.mem, ip, CopyCode(form, off, len, |lits|) + lits + tail)
    requires ip + |CopyCode(form, off, len, |lits|)| + |lits| + |tail| == j.n
    ensures var ip', out' := ip + |CopyCode(form, off, len, |lits|)| + |lits|, CopyMatch(out, |out| - off, len) + lits;
            && Valid(j, StateAt(j, ctx, ip, out)) && Valid(j, StateAt(j, AfterCopy(lits), ip', out'))
            && RunFrom(j, StateAt(j, ctx, ip, out)) == RunFrom(j, StateAt(j, AfterCopy(lits), ip', out'))
            && Holds(j.mem, ip', tail)
  {
    hide RunFrom, CopyCode, CopyMatch, Step, Fits, Allowed, StateAt, Valid;
    FitsPositive(form, off, len);
    var code, copied := CopyCode(form, off, len, |lits|), CopyMatch(out, |out| - off, len);
    RepeatParts(j.mem, ip, code, lits, tail);
    CodeDecodes(j, ctx, form, off, len, |lits|, ip, out);
    CopyStep(j, off, len, ip + |code|, out);
    Advance(j, State.Copy(off, len, ip + |code|, out), MatchDone(ip + |code|, copied));
    AfterCopyDecodes(j, ip + |code|, copied, lits);
  }

  /** One literal run, with tail behind it. */
  lemma EmitRuns(j: Job, ip: nat, out: seq<byte>, lits: seq<byte>, tail: seq<byte>)
    requires 1 <= j.n && 4 <= |lits| && |out| + |lits| <= j.cap && 3 <= |tail|
    requires Holds(j.mem, ip, LitHeader(|lits|) + lits + tail) && ip + |LitHeader(|lits|)| + |lits| + |tail| == j.n
    ensures var ip' := ip + |LitHeader(|lits|)| + |lits|;
            && Valid(j, Loop(ip, out)) && Valid(j, FirstLiteralRun(ip', out + lits))
            && RunFrom(j, Loop(ip, out)) == RunFrom(j, FirstLiteralRun(ip', out + lits))
            && Holds(j.mem, ip', tail)
  {
    hide RunFrom, LitHeader, Step;
    var header := LitHeader(|lits|);
    HoldsPart(j.mem, ip, header + lits + tail, 0, header);
    HoldsPart(j.mem, ip, header + lits + tail, |header|, lits);
    HoldsPart(j.mem, ip, header + lits + tail, |header| + |lits|, tail);
    EmitDecodes(j, ip, out, lits);
  }

  /** A program that is spelled up to the end of the input runs to its meaning. */
  lemma {:induction false} ProgramRuns(j: Job, ctx: Context, ip: nat, out: seq<byte>, p: Program)
    requires 1 <= j.n && Proper(ctx, |out|, p) && |Meaning(ctx, out, p)| <= j.cap
    requires Holds(j.mem, ip, Spell(ctx, |out|, p)) && ip + |Spell(ctx, |out|, p)| == j.n
    ensures Valid(j, StateAt(j, ctx, ip, out))
    ensures RunFrom(j, StateAt(j, ctx, ip, out)) == Halt(Ok, j.n, Meaning(ctx, out, p))
    decreases p
  {
    hide RunFrom, CopyCode, EndCode, LitHeader, CopyMatch, Step, Valid, Holds, Fits, Allowed;
    match p
    case Stop(len, low) => StopDecodes(j, ctx, len, low, ip, out);
    case Emit(lits, rest) =>
      EmitRuns(j, ip, out, lits, Spell(AfterRun, |out| + |lits|, rest));
      ProgramRuns(j, AfterRun, ip + |LitHeader(|lits|)| + |lits|, out + lits, rest);
    case Repeat(form, off, len, lits, rest) =>
      FitsPositive(form, off, len);
      RepeatRuns(j, ctx, ip, out, form, off, len, lits, Spell(AfterCopy(lits), |out| + len + |lits|, rest));
      ProgramRuns(j, AfterCopy(lits), ip + |CopyCode(form, off, len, |lits|)| + |lits|,
                  CopyMatch(out, |out| - off, len) + lits, rest);
  }

  lemma FitsPositive(form: Form, off: nat, len: nat)
    requires Fits(form, off, len)
    ensures 1 <= off && 2 <= len
  {
  }

  // ----- what is accepted is spelled

  lemma {:induction false} RunWasSpelled(j: Job, t: nat, ip: nat) returns (x: nat)
    requires ip <= j.n && ReadRun(j.mem, j.n, t, ip).Length?
    ensures 0 < x && Holds(j.mem, ip, Run(x)) && ip + |Run(x)| <= j.n
    ensures ReadRun(j.mem, j.n, t, ip) == Length(t + x, ip + |Run(x)|)
    decreases j.n - ip
  {
    if j.mem(ip) == 0 {
      var y := RunWasSpelled(j, t + 255, ip + 1);
      x := y + 255;
      HoldsBehind(j.mem, ip, 0, Run(y));
    } else {
      x := j.mem(ip);
    }
  }

  lemma HoldsBehind(mem: Memory, ip: nat, b: byte, s: seq<byte>)
    requires mem(ip) == b && Holds(mem, ip + 1, s)
    ensures Holds(mem, ip, [b] + s)
  {
    forall i | 0 <= i < |s| + 1 ensures mem(ip + i) == ([b] + s)[i] {
      if i > 0 { assert mem(ip + 1 + (i - 1)) == s[i - 1]; }
    }
  }

  lemma HoldsBoth(mem: Memory, ip: nat, a: seq<byte>, b: seq<byte>)
    requires Holds(mem, ip, a) && Holds(mem, ip + |a|, b)
    ensures Holds(mem, ip, a + b)
  {
    forall i | 0 <= i < |a| + |b| ensures mem(ip + i) == (a + b)[i] {
      if i >= |a| { assert mem(ip + |a| + (i - |a|)) == b[i - |a|]; }
    }
  }

  /** The length of an M3 or M4 opcode, from its low bits or from the 255-run behind it. */
  lemma OpcodeWasSpelled(j: Job, marker: byte, maxLen: nat, bits: nat, ip: nat) returns (len: nat)
    requires (maxLen == M3_MAX_LEN && marker == M3_MARKER)
          || (maxLen == M4_MAX_LEN && marker % 8 == 0 && 16 <= marker < 32)
    requires bits + 1 < maxLen && ip < j.n && j.mem(ip) == marker + bits
    requires bits == 0 ==> ReadRun(j.mem, j.n, 0, ip + 1).Length?
    ensures 3 <= len && Holds(j.mem, ip, LongOpcode(marker, maxLen, len))
    ensures bits > 0 ==> len == bits + 2 && |LongOpcode(marker, maxLen, len)| == 1
    ensures bits == 0 ==> len > maxLen
    ensures bits == 0 ==>
              ReadRun(j.mem, j.n, 0, ip + 1) == Length(len - maxLen, ip + |LongOpcode(marker, maxLen, len)|)
  {
    if bits > 0 {
      len := bits + 2;
    } else {
      var x := RunWasSpelled(j, 0, ip + 1);
      len := maxLen + x;
      HoldsBehind(j.mem, ip, marker, Run(x));
    }
  }

  lemma DistanceWasSpelled(mem: Memory, ip: nat, high: nat)
    ensures Distance14(mem, ip) < 0x4000
    ensures Holds(mem, ip, DistanceBytes(high * 0x4000 + Distance14(mem, ip), mem(ip) % 4))
  {
    Split14(high, mem(ip), mem(ip + 1));
  }

  lemma Split14(high: nat, b0: byte, b1: byte)
    ensures var q: nat := b0 / 4;
            var o := high * 0x4000 + (q + b1 * 64);
            q + b1 * 64 < 0x4000 && o / 64 % 256 == b1 && o % 64 == q && q * 4 + b0 % 4 == b0
  {
    var q: nat := b0 / 4;
    assert high * 0x4000 + (q + b1 * 64) == (high * 256 + b1) * 64 + q;
    assert (high * 0x4000 + (q + b1 * 64)) / 64 == high * 256 + b1;
  }

  /** The opcode and its length, and the distance bytes behind it. */
  lemma LongWasSpelled(mem: Memory, ip: nat, opcode: seq<byte>, high: nat)
    requires Holds(mem, ip, opcode)
    ensures Distance14(mem, ip + |opcode|) < 0x4000
    ensures var at := ip + |opcode|;
            Holds(mem, ip, opcode + DistanceBytes(high * 0x4000 + Distance14(mem, at), mem(at) % 4))
  {
    hide DistanceBytes, Distance14;
    DistanceWasSpelled(mem, ip + |opcode|, high);
    HoldsBoth(mem, ip, opcode, DistanceBytes(high * 0x4000 + Distance14(mem, ip + |opcode|), mem(ip + |opcode|) % 4));
  }

  /** The state is about to copy what the code at ip says. */
  ghost predicate Spells(j: Job, ip: nat, form: Form, s: State) {
    && s.Copy? && 0 < s.off && Fits(form, s.off, s.len) && 2 <= s.ip
    && var code := CopyCode(form, s.off, s.len, j.mem(s.ip - 2) % 4);
       s.ip == ip + |code| && Holds(j.mem, ip, code)
  }

  lemma M1NearWasSpelled(j: Job, ip: nat, out: seq<byte>)
    requires Valid(j, Match(j.mem(ip), ip + 1, out)) && j.mem(ip) < 16
    ensures Spells(j, ip, M1Near, StepMatch(j, j.mem(ip), ip + 1, out))
  {
    hide ReadRun, StepM4;
    var t: nat, b: nat := j.mem(ip), j.mem(ip + 1);
    assert (t / 4 + b * 4) % 4 == t / 4 && (t / 4 + b * 4) / 4 == b;
  }

  lemma M1FarWasSpelled(j: Job, ip: nat, out: seq<byte>)
    requires Valid(j, FirstLiteralRun(ip, out)) && j.mem(ip) < 16
    ensures Spells(j, ip, M1Far, StepFirstLiteralRun(j, ip, out))
  {
    var t: nat, b: nat := j.mem(ip), j.mem(ip + 1);
    assert (t / 4 + b * 4) % 4 == t / 4 && (t / 4 + b * 4) / 4 == b;
  }

  lemma M2WasSpelled(j: Job, ip: nat, out: seq<byte>)
    requires Valid(j, Match(j.mem(ip), ip + 1, out)) && 64 <= j.mem(ip)
    ensures Spells(j, ip, M2, StepMatch(j, j.mem(ip), ip + 1, out))
  {
    hide ReadRun, StepM4;
    var t: nat, b: nat := j.mem(ip), j.mem(ip + 1);
    M2Parts(t, b);
  }

  lemma M2Parts(t: nat, b: nat)
    ensures var bits := t / 4 % 8;
            (bits + b * 8) % 8 == bits && (bits + b * 8) / 8 == b && t / 32 * 32 + bits * 4 + t % 4 == t
  {
    assert t / 4 == t / 32 * 8 + t / 4 % 8;
  }

  lemma M3WasSpelled(j: Job, ip: nat, out: seq<byte>)
    requires Valid(j, Match(j.mem(ip), ip + 1, out)) && 32 <= j.mem(ip) < 64
    requires StepMatch(j, j.mem(ip), ip + 1, out).Copy?
    ensures Spells(j, ip, M3, StepMatch(j, j.mem(ip), ip + 1, out))
  {
    hide ReadRun, StepM4, Distance14, DistanceBytes, LongOpcode;
    var len := OpcodeWasSpelled(j, M3_MARKER, M3_MAX_LEN, j.mem(ip) % 32, ip);
    LongWasSpelled(j.mem, ip, LongOpcode(M3_MARKER, M3_MAX_LEN, len), 0);
  }

  lemma M4Opcode(t: nat)
    requires 16 <= t < 32
    ensures t == M4_MARKER + t / 8 % 2 * 8 + t % 8
  {
  }

  /** The opcode of an M4 match or of the end, with everything behind it. */
  lemma M4Parts(j: Job, ip: nat, out: seq<byte>) returns (len: nat, opcode: seq<byte>)
    requires Valid(j, Match(j.mem(ip), ip + 1, out)) && 16 <= j.mem(ip) < 32
    requires var s := StepMatch(j, j.mem(ip), ip + 1, out); s.Copy? || s.status.Ok?
    ensures var high := j.mem(ip) / 8 % 2;
            && 3 <= len && opcode == LongOpcode(M4_MARKER + high * 8, M4_MAX_LEN, len) && Holds(j.mem, ip, opcode)
            && StepMatch(j, j.mem(ip), ip + 1, out)
            == StepM4(j, high * 0x4000 + Distance14(j.mem, ip + |opcode|), len - 2, ip + |opcode| + 2, out)
  {
    hide ReadRun, StepM4, Distance14, LongOpcode, StepMatch;
    var t: nat := j.mem(ip);
    var high, bits := t / 8 % 2, t % 8;
    M4Opcode(t);
    M4RunIsThere(j, ip, out);
    len := OpcodeWasSpelled(j, M4_MARKER + high * 8, M4_MAX_LEN, bits, ip);
    opcode := LongOpcode(M4_MARKER + high * 8, M4_MAX_LEN, len);
    M4Step(j, high, bits, len, ip + 1, |opcode|, out);
  }

  lemma M4RunIsThere(j: Job, ip: nat, out: seq<byte>)
    requires Valid(j, Match(j.mem(ip), ip + 1, out)) && 16 <= j.mem(ip) < 32
    requires var s := StepMatch(j, j.mem(ip), ip + 1, out); s.Copy? || s.status.Ok?
    ensures j.mem(ip) % 8 == 0 ==> ReadRun(j.mem, j.n, 0, ip + 1).Length?
  {
    hide ReadRun, StepM4;
  }

  lemma M4WasSpelled(j: Job, ip: nat, out: seq<byte>)
    requires Valid(j, Match(j.mem(ip), ip + 1, out)) && 16 <= j.mem(ip) < 32
    requires StepMatch(j, j.mem(ip), ip + 1, out).Copy?
    ensures Spells(j, ip, M4, StepMatch(j, j.mem(ip), ip + 1, out))
  {
    hide ReadRun, Distance14, DistanceBytes, LongOpcode, StepMatch;
    var len, opcode := M4Parts(j, ip, out);
    var high := j.mem(ip) / 8 % 2;
    LongWasSpelled(j.mem, ip, opcode, high);
    var o := high * 0x4000 + Distance14(j.mem, ip + |opcode|);
    assert o / 0x4000 == high;
  }

  lemma StopWasSpelled(j: Job, ip: nat, out: seq<byte>) returns (len: nat, low: nat)
    requires Valid(j, Match(j.mem(ip), ip + 1, out)) && 16 <= j.mem(ip)
    requires var s := StepMatch(j, j.mem(ip), ip + 1, out); s.Halt? && s.status.Ok?
    ensures 3 <= len && low <= 3
    ensures Holds(j.mem, ip, EndCode(len, low)) && ip + |EndCode(len, low)| == j.n
    ensures StepMatch(j, j.mem(ip), ip + 1, out).out == out
  {
    hide ReadRun, DistanceBytes, LongOpcode;
    assert j.mem(ip) < 32;
    hide StepMatch;
    var opcode;
    len, opcode := M4Parts(j, ip, out);
    assert Distance14(j.mem, ip + |opcode|) == 0 && j.mem(ip) / 8 % 2 == 0;
    low := j.mem(ip + |opcode|);
    ZeroDistance(j.mem, ip + |opcode|);
    HoldsBoth(j.mem, ip, opcode, [low, 0]);
  }

  lemma ZeroDistance(mem: Memory, ip: nat)
    requires Distance14(mem, ip) == 0
    ensures mem(ip) <= 3 && mem(ip + 1) == 0 && Holds(mem, ip, [mem(ip), 0])
  {
  }

  /** A step of an accepting run does not fail. */
  lemma AcceptingStep(j: Job, s: State)
    requires Valid(j, s) && !s.Halt? && RunFrom(j, s).status.Ok?
    ensures RunFrom(j, Step(j, s)) == RunFrom(j, s) && (Step(j, s).Halt? ==> Step(j, s).status.Ok?)
  {
    hide Step;
    var next := Step(j, s);
    if next.Halt? { assert RunFrom(j, next) == next; }
  }

  /** Every match opcode of an accepting run spells a form, or the end. */
  lemma RepeatWasSpelled(j: Job, ctx: Context, ip: nat, out: seq<byte>) returns (form: Form, copy: State)
    requires Valid(j, StateAt(j, ctx, ip, out)) && RunFrom(j, StateAt(j, ctx, ip, out)).status.Ok?
    requires ip < j.n && (ctx.AtLoop? ==> 16 <= j.mem(ip))
    requires 16 <= j.mem(ip) ==> StepMatch(j, j.mem(ip), ip + 1, out).Copy?
    ensures Allowed(ctx, form) && Spells(j, ip, form, copy) && Valid(j, copy) && copy.out == out
    ensures RunFrom(j, StateAt(j, ctx, ip, out)) == RunFrom(j, copy)
  {
    hide RunFrom, StepMatch, StepFirstLiteralRun, StepLoop, Spells;
    if j.mem(ip) < 16 && ctx.AfterRun? {
      form, copy := M1Far, StepFirstLiteralRun(j, ip, out);
      M1FarWasSpelled(j, ip, out);
      FarIsCopy(j, ip, out);
      Advance(j, FirstLiteralRun(ip, out), copy);
    } else {
      copy := StepMatch(j, j.mem(ip), ip + 1, out);
      if j.mem(ip) < 16 {
        form := M1Near;
        M1NearWasSpelled(j, ip, out);
        NearIsCopy(j, ip, out);
      } else {
        AtOpcode(j, ctx, ip, out);
        CopyKeepsOutput(j, ip, out);
        if 64 <= j.mem(ip) { form := M2; M2WasSpelled(j, ip, out); }
        else if 32 <= j.mem(ip) { form := M3; M3WasSpelled(j, ip, out); }
        else { form := M4; M4WasSpelled(j, ip, out); }
      }
      Advance(j, Match(j.mem(ip), ip + 1, out), copy);
    }
  }

  lemma FarIsCopy(j: Job, ip: nat, out: seq<byte>)
    requires Valid(j, FirstLiteralRun(ip, out)) && j.mem(ip) < 16
    ensures StepFirstLiteralRun(j, ip, out).Copy? && StepFirstLiteralRun(j, ip, out).out == out
  {
  }

  lemma NearIsCopy(j: Job, ip: nat, out: seq<byte>)
    requires Valid(j, Match(j.mem(ip), ip + 1, out)) && j.mem(ip) < 16
    ensures StepMatch(j, j.mem(ip), ip + 1, out).Copy? && StepMatch(j, j.mem(ip), ip + 1, out).out == out
  {
  }

  lemma CopyKeepsOutput(j: Job, ip: nat, out: seq<byte>)
    requires Valid(j, Match(j.mem(ip), ip + 1, out))
    ensures StepMatch(j, j.mem(ip), ip + 1, out).out == out
  {
    hide ReadRun, Distance14;
  }

  /** An accepting run copies what a match says, and the literals its code counts. */
  lemma CopyWasFollowed(j: Job, copy: State) returns (lits: seq<byte>)
    requires Valid(j, copy) && copy.Copy? && RunFrom(j, copy).status.Ok?
    ensures 1 <= copy.off <= |copy.out| && |lits| == j.mem(copy.ip - 2) % 4 && Holds(j.mem, copy.ip, lits)
    ensures var ctx, out := AfterCopy(lits), CopyMatch(copy.out, |copy.out| - copy.off, copy.len) + lits;
            && Valid(j, StateAt(j, ctx, copy.ip + |lits|, out))
            && RunFrom(j, copy) == RunFrom(j, StateAt(j, ctx, copy.ip + |lits|, out))
  {
    hide RunFrom, CopyMatch, StepMatch, StepLoop, StepFirstLiteralRun, ReadRun;
    AcceptingStep(j, copy);
    var copied := CopyMatch(copy.out, |copy.out| - copy.off, copy.len);
    var done := MatchDone(copy.ip, copied);
    AcceptingStep(j, done);
    var low := j.mem(copy.ip - 2) % 4;
    lits := Slice(j.mem, copy.ip, low);
    if low == 0 {
      assert copied + lits == copied;
    } else {
      AcceptingStep(j, MatchNext(low, copy.ip, copied));
    }
  }

  lemma EmitWasSpelled(j: Job, ip: nat, out: seq<byte>) returns (lits: seq<byte>)
    requires Valid(j, Loop(ip, out)) && ip < j.n && j.mem(ip) < 16 && RunFrom(j, Loop(ip, out)).status.Ok?
    ensures 4 <= |lits| && Holds(j.mem, ip, LitHeader(|lits|) + lits)
    ensures var ip' := ip + |LitHeader(|lits|)| + |lits|;
            && Valid(j, FirstLiteralRun(ip', out + lits))
            && RunFrom(j, Loop(ip, out)) == RunFrom(j, FirstLiteralRun(ip', out + lits))
  {
    hide RunFrom, StepMatch, StepFirstLiteralRun, StepCopy;
    AcceptingStep(j, Loop(ip, out));
    var n: nat;
    if j.mem(ip) == 0 {
      var x := RunWasSpelled(j, 0, ip + 1);
      n := x + 18;
      HoldsBehind(j.mem, ip, 0, Run(x));
    } else {
      n := j.mem(ip) + 3;
    }
    var at := ip + |LitHeader(n)|;
    assert Step(j, Loop(ip, out)) == State.Literals(n - 3, at, out);
    AcceptingStep(j, State.Literals(n - 3, at, out));
    lits := Slice(j.mem, at, n);
    HoldsBoth(j.mem, ip, LitHeader(n), lits);
  }

  lemma LoopGoesOn(j: Job, ip: nat, out: seq<byte>)
    requires Valid(j, Loop(ip, out)) && RunFrom(j, Loop(ip, out)).status.Ok?
    ensures ip < j.n
  {
    hide RunFrom;
    AcceptingStep(j, Loop(ip, out));
  }

  lemma MatchOrEnd(j: Job, ctx: Context, ip: nat, out: seq<byte>)
    requires Valid(j, StateAt(j, ctx, ip, out)) && RunFrom(j, StateAt(j, ctx, ip, out)).status.Ok?
    requires ip < j.n && 16 <= j.mem(ip)
    ensures Valid(j, Match(j.mem(ip), ip + 1, out))
    ensures var s := StepMatch(j, j.mem(ip), ip + 1, out);
            s.Copy? || (s.Halt? && s.status.Ok? && RunFrom(j, StateAt(j, ctx, ip, out)).out == s.out)
  {
    hide ReadRun, Distance14, RunFrom;
    AtOpcode(j, ctx, ip, out);
    AcceptingStep(j, Match(j.mem(ip), ip + 1, out));
    HaltRuns(j, StepMatch(j, j.mem(ip), ip + 1, out));
  }

  lemma HaltRuns(j: Job, s: State)
    requires Valid(j, s) && (s.Halt? && s.status.Ok? ==> s.ip == j.n)
    ensures s.Halt? ==> RunFrom(j, s) == s
  {
  }

  /** The program stands at ip, up to the end of the input, and gives this output. */
  ghost predicate ProgramAt(j: Job, ctx: Context, ip: nat, out: seq<byte>, p: Program, result: seq<byte>) {
    && Proper(ctx, |out|, p) && Meaning(ctx, out, p) == result
    && Holds(j.mem, ip, Spell(ctx, |out|, p)) && ip + |Spell(ctx, |out|, p)| == j.n
  }

  lemma EmitInFront(j: Job, ip: nat, out: seq<byte>, lits: seq<byte>, rest: Program, result: seq<byte>)
    requires 4 <= |lits| && Holds(j.mem, ip, LitHeader(|lits|) + lits)
    requires ProgramAt(j, AfterRun, ip + |LitHeader(|lits|)| + |lits|, out + lits, rest, result)
    ensures ProgramAt(j, AtLoop, ip, out, Emit(lits, rest), result)
  {
    hide LitHeader, Holds;
    HoldsBoth(j.mem, ip, LitHeader(|lits|) + lits, Spell(AfterRun, |out| + |lits|, rest));
  }

  lemma RepeatInFront(
    j: Job, ctx: Context, ip: nat,
    form: Form, copy: State, lits: seq<byte>, rest: Program, result: seq<byte>)
    requires Allowed(ctx, form) && Spells(j, ip, form, copy) && 1 <= copy.off <= |copy.out|
    requires |lits| == j.mem(copy.ip - 2) % 4 && Holds(j.mem, copy.ip, lits)
    requires ProgramAt(j, AfterCopy(lits), copy.ip + |lits|,
                       CopyMatch(copy.out, |copy.out| - copy.off, copy.len) + lits, rest, result)
    ensures ProgramAt(j, ctx, ip, copy.out, Repeat(form, copy.off, copy.len, lits, rest), result)
  {
    hide CopyCode, CopyMatch, Holds, Fits, Allowed;
    var code := CopyCode(form, copy.off, copy.len, |lits|);
    HoldsBoth(j.mem, ip, code, lits);
    HoldsBoth(j.mem, ip, code + lits, Spell(AfterCopy(lits), |copy.out| + copy.len + |lits|, rest));
  }

  /** The program that an accepting run has read. */
  lemma {:induction false} ProgramWasSpelled(j: Job, ctx: Context, ip: nat, out: seq<byte>) returns (p: Program)
    requires Valid(j, StateAt(j, ctx, ip, out)) && RunFrom(j, StateAt(j, ctx, ip, out)).status.Ok?
    ensures ProgramAt(j, ctx, ip, out, p, RunFrom(j, StateAt(j, ctx, ip, out)).out)
    decreases j.n + 10 - ip
  {
    hide RunFrom, StepMatch, CopyMatch, CopyCode, LitHeader, ProgramAt, Step, EndCode;
    if ctx.AtLoop? { LoopGoesOn(j, ip, out); }
    if 16 <= j.mem(ip) { MatchOrEnd(j, ctx, ip, out); }
    if ctx.AtLoop? && j.mem(ip) < 16 {
      var lits := EmitWasSpelled(j, ip, out);
      var rest := ProgramWasSpelled(j, AfterRun, ip + |LitHeader(|lits|)| + |lits|, out + lits);
      p := Emit(lits, rest);
      EmitInFront(j, ip, out, lits, rest, RunFrom(j, StateAt(j, ctx, ip, out)).out);
    } else if 16 <= j.mem(ip) && StepMatch(j, j.mem(ip), ip + 1, out).Halt? {
      var len, low := StopWasSpelled(j, ip, out);
      p := Stop(len, low);
      assert ProgramAt(j, ctx, ip, out, p, out) by { StopAt(j, ctx, ip, out, len, low); }
    } else {
      var form, copy := RepeatWasSpelled(j, ctx, ip, out);
      var lits := CopyWasFollowed(j, copy);
      var rest := ProgramWasSpelled(j, AfterCopy(lits), copy.ip + |lits|,
                                    CopyMatch(copy.out, |copy.out| - copy.off, copy.len) + lits);
      p := Repeat(form, copy.off, copy.len, lits, rest);
      RepeatInFront(j, ctx, ip, form, copy, lits, rest, RunFrom(j, StateAt(j, ctx, ip, out)).out);
    }
  }

  lemma StopAt(j: Job, ctx: Context, ip: nat, out: seq<byte>, len: nat, low: nat)
    requires 3 <= len && low <= 3 && Holds(j.mem, ip, EndCode(len, low)) && ip + |EndCode(len, low)| == j.n
    ensures ProgramAt(j, ctx, ip, out, Stop(len, low), out)
  {
    hide EndCode;
  }

  // ----- whole streams

  /** The input spells the source, and there is room for what it means. */
  ghost predicate Spelled(j: Job, s: Source) {
    && ProperSource(s) && |SourceMeaning(s)| <= j.cap
    && Holds(j.mem, 0, SourceSpell(s)) && j.n == |SourceSpell(s)|
  }

  lemma PlainStarts(j: Job, p: Program)
    requires 1 <= j.n && ProperSource(Plain(p)) && Holds(j.mem, 0, Spell(AtLoop, 0, p))
    ensures Start(j) == Loop(0, [])
  {
    hide CopyCode, LitHeader, StepLiterals;
    assert j.mem(0 + 0) == Spell(AtLoop, 0, p)[0];
  }

  lemma FirstStarts(j: Job, lits: seq<byte>, tail: seq<byte>)
    requires 1 <= |lits| <= 238 && |lits| <= j.cap && 3 <= |tail|
    requires Holds(j.mem, 0, [17 + |lits|] + lits + tail) && j.n == 1 + |lits| + |tail|
    ensures Valid(j, StateAt(j, FirstContext(lits), 1 + |lits|, lits))
    ensures RunFrom(j, Start(j)) == RunFrom(j, StateAt(j, FirstContext(lits), 1 + |lits|, lits))
    ensures Holds(j.mem, 1 + |lits|, tail)
  {
    hide StepMatch, StepLoop, StepCopy, RunFrom;
    var t := |lits|;
    var head: seq<byte> := [17 + t];
    assert j.mem(0 + 0) == (head + lits + tail)[0];
    HoldsPart(j.mem, 0, head + lits + tail, 1, lits);
    HoldsPart(j.mem, 0, head + lits + tail, 1 + t, tail);
    assert Slice(j.mem, 1, t) == lits && [] + lits == lits;
    if t < 4 { Advance(j, MatchNext(t, 1, []), Match(j.mem(1 + t), t + 2, lits)); }
  }

  lemma SourceRuns(j: Job, s: Source)
    requires Spelled(j, s)
    ensures 1 <= j.n && Decompress(j) == Halt(Ok, j.n, SourceMeaning(s))
  {
    hide RunFrom, Step, Start, Proper, Meaning, Spell;
    match s
    case Plain(p) =>
      PlainStarts(j, p);
      ProgramRuns(j, AtLoop, 0, [], p);
    case First(lits, p) =>
      var ctx := FirstContext(lits);
      FirstStarts(j, lits, Spell(ctx, |lits|, p));
      ProgramRuns(j, ctx, 1 + |lits|, lits, p);
  }

  lemma SourceWasSpelled(j: Job) returns (s: Source)
    requires 1 <= j.n && Decompress(j).status.Ok?
    ensures Spelled(j, s)
  {
    hide RunFrom, Step, StepMatch, StepLoop, StepCopy, StepFirstLiteralRun, CopyCode, Meaning, Spell, Proper;
    var t: int := j.mem(0) - 17;
    if t <= 0 {
      var p := ProgramWasSpelled(j, AtLoop, 0, []);
      s := Plain(p);
      PlainIsProper(j, p);
    } else {
      var lits := FirstWasSpelled(j);
      var p := ProgramWasSpelled(j, FirstContext(lits), 1 + |lits|, lits);
      s := First(lits, p);
      HoldsBoth(j.mem, 0, [17 + |lits|] + lits, Spell(FirstContext(lits), |lits|, p));
    }
  }

  lemma PlainIsProper(j: Job, p: Program)
    requires 1 <= j.n && j.mem(0) <= 17 && Proper(AtLoop, 0, p) && Holds(j.mem, 0, Spell(AtLoop, 0, p))
    ensures ProperSource(Plain(p))
  {
    hide CopyCode, LitHeader;
    assert j.mem(0 + 0) == Spell(AtLoop, 0, p)[0];
  }

  lemma FirstWasSpelled(j: Job) returns (lits: seq<byte>)
    requires 1 <= j.n && 17 < j.mem(0) && Decompress(j).status.Ok?
    ensures 1 <= |lits| <= 238 && Holds(j.mem, 0, [17 + |lits|] + lits)
    ensures Valid(j, StateAt(j, FirstContext(lits), 1 + |lits|, lits))
    ensures RunFrom(j, Start(j)) == RunFrom(j, StateAt(j, FirstContext(lits), 1 + |lits|, lits))
  {
    hide RunFrom, StepMatch, StepLoop, StepCopy, StepFirstLiteralRun;
    var t: nat := j.mem(0) - 17;
    lits := Slice(j.mem, 1, t);
    assert [] + lits == lits;
    HoldsBehind(j.mem, 0, 17 + t, lits);
    if t < 4 {
      AcceptingStep(j, MatchNext(t, 1, []));
    } else {
      HaltRuns(j, Start(j));
    }
  }

  /** For every input, every capacity, and whatever lies behind the input: the decompressor succeeds if and only
      if the input spells a program whose meaning fits in the output, and then it computes that meaning. */
  lemma AcceptsExactlyPrograms(j: Job)
    requires 1 <= j.n
    ensures Decompress(j).status.Ok? <==> exists s: Source :: Spelled(j, s)
    ensures forall s: Source :: Spelled(j, s) ==> Decompress(j) == Halt(Ok, j.n, SourceMeaning(s))
  {
    hide Decompress, Holds, SourceSpell, SourceMeaning, ProperSource;
    if Decompress(j).status.Ok? {
      var s := SourceWasSpelled(j);
    }
    forall s: Source | Spelled(j, s) ensures Decompress(j) == Halt(Ok, j.n, SourceMeaning(s)) {
      SourceRuns(j, s);
    }
  }

  /** The format is unambiguous: two programs with the same bytes mean the same. */
  lemma SpellingDeterminesMeaning(a: Source, b: Source)
    requires ProperSource(a) && ProperSource(b) && SourceSpell(a) == SourceSpell(b)
    ensures SourceMeaning(a) == SourceMeaning(b)
  {
    hide ProperSource, SourceSpell, SourceMeaning, Decompress;
    var code := SourceSpell(a);
    var j := Job((i: nat) => if i < |code| then code[i] else 0, |code|, |SourceMeaning(a)| + |SourceMeaning(b)|);
    SourceRuns(j, a);
    SourceRuns(j, b);
  }
}
