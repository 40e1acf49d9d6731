/** Input that the decompressor does not accept. */
module LzoRejected {
  import opened Bytes
  import opened LzoFormat
  import opened LzoMachine
  import opened LzoDecoding
  import opened LzoPrograms
  import opened LzoAccepted

  // ----- more input than the stream

  lemma {:induction false} ReadRunWithMore(mem: Memory, n: nat, m: nat, t: nat, ip: nat)
    requires ip <= n <= m && ReadRun(mem, n, t, ip).Length?
    ensures ReadRun(mem, m, t, ip) == ReadRun(mem, n, t, ip)
    decreases n - ip
  {
    if mem(ip) == 0 { ReadRunWithMore(mem, n, m, t + 255, ip + 1); }
  }

  /** The result of a successful run when there is more input: the same output, at the same position, but not
      all input is consumed. */
  function WithMore(j: Job, more: nat, s: State): State {
    if s.Halt? && s.ip < j.n + more then Halt(InputNotConsumed, s.ip, s.out) else s
  }

  lemma MatchWithMore(j: Job, more: nat, t: nat, ip: nat, out: seq<byte>)
    requires Valid(j, Match(t, ip, out))
    requires var s := StepMatch(j, t, ip, out); s.Halt? ==> s.status.Ok?
    ensures Valid(j.(n := j.n + more), Match(t, ip, out))
    ensures StepMatch(j.(n := j.n + more), t, ip, out) == WithMore(j, more, StepMatch(j, t, ip, out))
  {
    hide ReadRun, Distance14;
    if ReadRun(j.mem, j.n, 0, ip).Length? { ReadRunWithMore(j.mem, j.n, j.n + more, 0, ip); }
  }

  lemma LoopWithMore(j: Job, more: nat, ip: nat, out: seq<byte>)
    requires Valid(j, Loop(ip, out)) && !StepLoop(j, ip, out).Halt?
    ensures Valid(j.(n := j.n + more), Loop(ip, out))
    ensures StepLoop(j.(n := j.n + more), ip, out) == StepLoop(j, ip, out)
  {
    hide ReadRun;
    if ReadRun(j.mem, j.n, 0, ip + 1).Length? { ReadRunWithMore(j.mem, j.n, j.n + more, 0, ip + 1); }
  }

  lemma MatchNextWithMore(j: Job, more: nat, t: nat, ip: nat, out: seq<byte>)
    requires Valid(j, MatchNext(t, ip, out)) && !StepMatchNext(j, t, ip, out).Halt?
    ensures Valid(j.(n := j.n + more), MatchNext(t, ip, out))
    ensures StepMatchNext(j.(n := j.n + more), t, ip, out) == StepMatchNext(j, t, ip, out)
  {
    hide Slice;
  }

  lemma StepWithMore(j: Job, more: nat, s: State)
    requires Valid(j, s) && !s.Halt? && (Step(j, s).Halt? ==> Step(j, s).status.Ok?)
    ensures Valid(j.(n := j.n + more), s) && Step(j.(n := j.n + more), s) == WithMore(j, more, Step(j, s))
  {
    hide StepLoop, StepMatch, StepMatchNext, CopyMatch, Slice;
    match s
    case Loop(ip, out) =>
      LoopOnlyFails(j, ip, out);
      LoopWithMore(j, more, ip, out);
    case Match(t, ip, out) => MatchWithMore(j, more, t, ip, out);
    case MatchNext(t, ip, out) =>
      MatchNextOnlyFails(j, t, ip, out);
      MatchNextWithMore(j, more, t, ip, out);
    case _ =>
  }

  lemma LoopOnlyFails(j: Job, ip: nat, out: seq<byte>)
    requires Valid(j, Loop(ip, out))
    ensures StepLoop(j, ip, out).Halt? ==> !StepLoop(j, ip, out).status.Ok?
  {
    hide ReadRun;
  }

  lemma MatchNextOnlyFails(j: Job, t: nat, ip: nat, out: seq<byte>)
    requires Valid(j, MatchNext(t, ip, out))
    ensures StepMatchNext(j, t, ip, out).Halt? ==> !StepMatchNext(j, t, ip, out).status.Ok?
  {
    hide Slice;
  }

  lemma {:induction false} RunWithMore(j: Job, more: nat, s: State)
    requires Valid(j, s) && !s.Halt? && RunFrom(j, s).status.Ok?
    ensures Valid(j.(n := j.n + more), s) && RunFrom(j.(n := j.n + more), s) == WithMore(j, more, RunFrom(j, s))
    decreases Rank(j, s)
  {
    hide Step;
    AcceptingStep(j, s);
    StepWithMore(j, more, s);
    if !Step(j, s).Halt? { RunWithMore(j, more, Step(j, s)); }
  }

  lemma StartWithMore(j: Job, more: nat)
    requires 1 <= j.n && !Start(j).Halt?
    ensures Start(j.(n := j.n + more)) == Start(j)
  {
    hide Slice;
  }

  /** A good stream with more bytes behind it is decompressed, but reported as not consumed, at its very end. */
  lemma GoodStreamWithMore(j: Job, more: nat)
    requires 1 <= j.n && 1 <= more && Decompress(j).status.Ok?
    ensures Decompress(j.(n := j.n + more)) == Halt(InputNotConsumed, j.n, Decompress(j).out)
  {
    hide RunFrom, Start;
    if Start(j).Halt? { HaltRuns(j, Start(j)); }
    StartWithMore(j, more);
    RunWithMore(j, more, Start(j));
  }

  /** No accepted stream is the beginning of another one. */
  lemma StreamsArePrefixFree(a: Source, b: Source)
    requires ProperSource(a) && ProperSource(b) && SourceSpell(a) <= SourceSpell(b)
    ensures SourceSpell(a) == SourceSpell(b)
  {
    hide ProperSource, SourceSpell, SourceMeaning, Decompress;
    var code, n := SourceSpell(b), |SourceSpell(a)|;
    var j := Job((i: nat) => if i < |code| then code[i] else 0, n, |SourceMeaning(a)| + |SourceMeaning(b)|);
    assert forall i :: 0 <= i < n ==> SourceSpell(a)[i] == code[i];
    SourceRuns(j, a);
    SourceRuns(j.(n := |code|), b);
    if n < |code| {
      GoodStreamWithMore(j, |code| - n);
    }
  }

  // ----- wrong matches and missing bytes

  /** A match that reaches in front of the output is rejected where it stands, whatever its form. */
  lemma WrongDistanceIsRejected(
    j: Job, ctx: Context, form: Form, off: nat, len: nat, low: nat, ip: nat, out: seq<byte>)
    requires Allowed(ctx, form) && Fits(form, off, len) && low <= 3 && |out| <= j.cap && |out| < off
    requires Holds(j.mem, ip, CopyCode(form, off, len, low)) && ip + |CopyCode(form, off, len, low)| <= j.n
    ensures Valid(j, StateAt(j, ctx, ip, out))
    ensures RunFrom(j, StateAt(j, ctx, ip, out))
         == Halt(LookbehindOverrun, ip + |CopyCode(form, off, len, low)|, out)
  {
    hide RunFrom, CopyCode, StepMatch, StepLoop, StepFirstLiteralRun, CopyMatch;
    var copy := State.Copy(off, len, ip + |CopyCode(form, off, len, low)|, out);
    CodeDecodes(j, ctx, form, off, len, low, ip, out);
    Advance(j, copy, Halt(LookbehindOverrun, copy.ip, out));
    HaltRuns(j, Halt(LookbehindOverrun, copy.ip, out));
  }

  /** A match for which there is no room is an output overrun. */
  lemma MatchWithoutRoomIsRejected(
    j: Job, ctx: Context, form: Form, off: nat, len: nat, low: nat, ip: nat, out: seq<byte>)
    requires Allowed(ctx, form) && Fits(form, off, len) && low <= 3 && off <= |out| <= j.cap < |out| + len
    requires Holds(j.mem, ip, CopyCode(form, off, len, low)) && ip + |CopyCode(form, off, len, low)| <= j.n
    ensures Valid(j, StateAt(j, ctx, ip, out))
    ensures RunFrom(j, StateAt(j, ctx, ip, out)) == Halt(OutputOverrun, ip + |CopyCode(form, off, len, low)|, out)
  {
    hide RunFrom, CopyCode, StepMatch, StepLoop, StepFirstLiteralRun, CopyMatch;
    var copy := State.Copy(off, len, ip + |CopyCode(form, off, len, low)|, out);
    FitsPositive(form, off, len);
    CodeDecodes(j, ctx, form, off, len, low, ip, out);
    Advance(j, copy, Halt(OutputOverrun, copy.ip, out));
    HaltRuns(j, Halt(OutputOverrun, copy.ip, out));
  }

  /** A literal run needs its bytes and one more: with room for it, but too little input, it is an input overrun
      behind its header. */
  lemma ShortLiteralRunIsRejected(j: Job, n: nat, ip: nat, out: seq<byte>)
    requires Valid(j, Loop(ip, out)) && 4 <= n && Holds(j.mem, ip, LitHeader(n)) && |out| + n <= j.cap
    requires ip + |LitHeader(n)| < j.n <= ip + |LitHeader(n)| + n
    ensures RunFrom(j, Loop(ip, out)) == Halt(InputOverrun, ip + |LitHeader(n)|, out)
  {
    hide RunFrom, LitHeader, StepLoop, StepMatch, Slice;
    var at := ip + |LitHeader(n)|;
    HeaderDecodes(j, ip, out, n);
    Advance(j, Loop(ip, out), State.Literals(n - 3, at, out));
    Advance(j, State.Literals(n - 3, at, out), Halt(InputOverrun, at, out));
    HaltRuns(j, Halt(InputOverrun, at, out));
  }

  /** Without an end marker the end of the input is reported as such. */
  lemma MissingEndIsReported(j: Job, out: seq<byte>)
    requires 1 <= j.n && |out| <= j.cap
    ensures RunFrom(j, Loop(j.n, out)) == Halt(EofNotFound, j.n, out)
  {
    hide ReadRun;
    Advance(j, Loop(j.n, out), Halt(EofNotFound, j.n, out));
    HaltRuns(j, Halt(EofNotFound, j.n, out));
  }

  /** A run length that never ends is an input overrun at the end of the input. */
  lemma {:induction false} EndlessRun(mem: Memory, n: nat, t: nat, ip: nat)
    requires ip <= n && forall i :: ip <= i < n ==> mem(i) == 0
    ensures ReadRun(mem, n, t, ip) == Overrun(n)
    decreases n - ip
  {
    if ip < n { EndlessRun(mem, n, t + 255, ip + 1); }
  }

  lemma EndlessLiteralRunIsRejected(j: Job, ip: nat, out: seq<byte>)
    requires Valid(j, Loop(ip, out)) && ip < j.n && forall i :: ip <= i < j.n ==> j.mem(i) == 0
    ensures RunFrom(j, Loop(ip, out)) == Halt(InputOverrun, j.n, out)
  {
    hide RunFrom, ReadRun, StepMatch;
    EndlessRun(j.mem, j.n, 0, ip + 1);
    Advance(j, Loop(ip, out), Halt(InputOverrun, j.n, out));
    HaltRuns(j, Halt(InputOverrun, j.n, out));
  }

  /** An opcode 17 with two zero bytes behind it ends the run: with Ok exactly at the end of the input, with input
      not consumed in front of it, and with an overrun when its unchecked bytes lie behind it. */
  lemma EndMarkerDecides(j: Job, ip: nat, out: seq<byte>)
    requires |out| <= j.cap && ip < j.n && j.mem(ip) == 17 && j.mem(ip + 1) == 0 && j.mem(ip + 2) == 0
    ensures Valid(j, Match(17, ip + 1, out))
    ensures RunFrom(j, Match(17, ip + 1, out))
         == Halt(if ip + 3 == j.n then Ok else if ip + 3 < j.n then InputNotConsumed else InputOverrun, ip + 3, out)
  {
    hide RunFrom, ReadRun;
    var status := if ip + 3 == j.n then Ok else if ip + 3 < j.n then InputNotConsumed else InputOverrun;
    Advance(j, Match(17, ip + 1, out), Halt(status, ip + 3, out));
    HaltRuns(j, Halt(status, ip + 3, out));
  }

  /** Once the unchecked distance bytes have carried the read position behind the end, the unsigned check for
      literals passes; they are copied from there, and then the missing end is reported. */
  lemma LiteralsBehindTheEnd(j: Job, t: nat, ip: nat, out: seq<byte>)
    requires j.n < ip <= j.n + 2 && 1 <= t <= 3 && 1 <= j.n && |out| + t <= j.cap
    ensures Valid(j, MatchNext(t, ip, out))
    ensures RunFrom(j, MatchNext(t, ip, out)) == Halt(EofNotFound, ip + t + 1, out + Slice(j.mem, ip, t))
  {
    hide RunFrom, Slice, StepMatch;
    var end := Halt(EofNotFound, ip + t + 1, out + Slice(j.mem, ip, t));
    Advance(j, MatchNext(t, ip, out), end);
    HaltRuns(j, end);
  }
}
