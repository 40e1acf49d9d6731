/** What holds of compressor and decompressor together, and of the decompressor on any input. */
module LzoTheorems {
  import opened Bytes
  import opened LzoFormat
  import opened LzoMachine
  import opened LzoCompress
  import opened LzoPrograms
  import opened LzoAccepted
  import opened LzoStreams

  /** The decompressor accepts every stream of the compressor's format and returns exactly the expansion of its
      phrases followed by its tail, given room for it. */
  lemma StreamDecodes(j: Job, ps: Phrases, tail: seq<byte>)
    requires WellFormed(ps) && Size(ps) + |tail| <= j.cap
    requires j.n == |Stream(ps, tail)| && Holds(j.mem, 0, Stream(ps, tail))
    ensures Decompress(j) == Halt(Ok, j.n, Expand(ps) + tail)
  {
    hide Decompress, Stream, SourceOf, SourceSpell, SourceMeaning, ProperSource, Holds;
    StreamIsSpelled(ps, tail);
    SourceRuns(j, SourceOf(ps, tail));
  }

  /** The call that decompresses the code, with anything in the memory behind it. */
  function Call(code: seq<byte>, rest: Memory, cap: nat): Job {
    Job((i: nat) => if i < |code| then code[i] else rest(i), |code|, cap)
  }

  /** Decompressing what the compressor wrote gives back the input: for every input, every leftover
      dictionary, whatever lies behind the compressed bytes, and any sufficient capacity. */
  lemma RoundTrip(src: seq<byte>, dict: seq<int>, rest: Memory, cap: nat)
    requires |dict| == DICT_SIZE && |src| <= cap
    ensures var code := Compressed(src, dict);
            1 <= |code| && Decompress(Call(code, rest, cap)) == Halt(Ok, |code|, src)
  {
    hide ParseAll, Body, Decompress, WellFormed, Expand;
    var p := ParseAll(src, dict);
    var tail := src[p.ii..];
    StreamDecodes(Call(Stream(p.ps, tail), rest, cap), p.ps, tail);
    assert src[..p.ii] + tail == src;
  }

  lemma CompressedSize(src: seq<byte>, dict: seq<int>)
    requires |dict| == DICT_SIZE
    ensures |Compressed(src, dict)| <= |src| + |src| / 16 + 64 + 3
  {
    hide ParseAll, Stream;
    var p := ParseAll(src, dict);
    StreamSize(p.ps, src[p.ii..]);
  }

  // ----- the capacity decides

  ghost predicate Overruns(s: State) {
    s.Halt? && s.status.OutputOverrun?
  }

  /** A step of a successful run is the same for every capacity its output fits in, and overruns any
      other. */
  lemma StepAndCapacity(j: Job, s: State, cap: nat)
    requires Valid(j, s) && !s.Halt? && |s.out| <= cap
    requires Step(j, s).Halt? ==> Step(j, s).status.Ok?
    ensures var j', s' := j.(cap := cap), Step(j, s);
            Valid(j', s) && if |s'.out| <= cap then Step(j', s) == s' else Overruns(Step(j', s))
  {
    hide StepLoop, StepMatch, StepFirstLiteralRun, StepMatchDone, CopyMatch, Slice;
    CapacityIsIgnored(j, s, cap);
  }

  lemma CapacityIsIgnored(j: Job, s: State, cap: nat)
    requires Valid(j, s) && |s.out| <= cap
    ensures Valid(j.(cap := cap), s)
    ensures s.Loop? || s.FirstLiteralRun? || s.Match? || s.MatchDone? ==>
              Step(j.(cap := cap), s) == Step(j, s) && Step(j, s).out == s.out
  {
    hide StepCopy, StepMatchNext, StepLiterals, ReadRun, Slice, StepMatch;
    if s.Match? { MatchIgnoresCapacity(j, s.t, s.ip, s.out, cap); }
  }

  lemma MatchIgnoresCapacity(j: Job, t: nat, ip: nat, out: seq<byte>, cap: nat)
    requires Valid(j, Match(t, ip, out)) && |out| <= cap
    ensures Valid(j.(cap := cap), Match(t, ip, out))
    ensures StepMatch(j.(cap := cap), t, ip, out) == StepMatch(j, t, ip, out) && StepMatch(j, t, ip, out).out == out
  {
    hide ReadRun;
  }

  /** A successful run is repeated with every capacity that holds its output; with less, the result is
      an output overrun. */
  lemma {:induction false} RunAndCapacity(j: Job, s: State, cap: nat)
    requires Valid(j, s) && |s.out| <= cap
    requires s.Halt? && s.status.Ok? ==> s.ip == j.n
    requires RunFrom(j, s).status.Ok?
    ensures |s.out| <= |RunFrom(j, s).out|
    ensures var j', r := j.(cap := cap), RunFrom(j, s);
            Valid(j', s) && if |r.out| <= cap then RunFrom(j', s) == r else Overruns(RunFrom(j', s))
    decreases Rank(j, s)
  {
    hide Step;
    if !s.Halt? {
      var s' := Step(j, s);
      StepAndCapacity(j, s, cap);
      if |s'.out| <= cap {
        RunAndCapacity(j, s', cap);
      } else {
        OutputGrows(j, s');
      }
    }
  }

  lemma {:induction false} OutputGrows(j: Job, s: State)
    requires Valid(j, s)
    requires s.Halt? && s.status.Ok? ==> s.ip == j.n
    ensures s.out <= RunFrom(j, s).out && s.ip <= RunFrom(j, s).ip
    decreases Rank(j, s)
  {
    hide Step;
    if !s.Halt? { OutputGrows(j, Step(j, s)); }
  }

  lemma StartAndCapacity(j: Job, cap: nat)
    requires 1 <= j.n && !Start(j).Halt?
    ensures var j', s := j.(cap := cap), Start(j);
            if |s.out| <= cap then Start(j') == s else Overruns(Start(j'))
  {
  }

  /** A successful run starts with a state that is not final. */
  lemma StartIsNotTheEnd(j: Job)
    requires 1 <= j.n && Decompress(j).status.Ok?
    ensures !Start(j).Halt?
  {
    hide Step;
  }

  lemma CapacityDecides(j: Job, cap: nat)
    requires 1 <= j.n && Decompress(j).status.Ok?
    ensures var r, r' := Decompress(j), Decompress(j.(cap := cap));
            if |r.out| <= cap then r' == r else Overruns(r')
  {
    hide Step, Start;
    var s := Start(j);
    StartIsNotTheEnd(j);
    StartAndCapacity(j, cap);
    if |s.out| <= cap {
      RunAndCapacity(j, s, cap);
    } else {
      OutputGrows(j, s);
    }
  }

  /** The compressed stream decompresses if and only if there is room for the original. */
  lemma RoundTripNeedsRoom(src: seq<byte>, dict: seq<int>, rest: Memory, cap: nat)
    requires |dict| == DICT_SIZE
    ensures 1 <= |Compressed(src, dict)|
    ensures Decompress(Call(Compressed(src, dict), rest, cap)).status.Ok? <==> |src| <= cap
  {
    hide Decompress, Compressed;
    RoundTrip(src, dict, rest, |src|);
    CapacityDecides(Call(Compressed(src, dict), rest, |src|), cap);
  }

  // ----- nothing behind the input matters

  ghost predicate SameBelow(a: Memory, b: Memory, n: nat) {
    forall i :: 0 <= i < n ==> a(i) == b(i)
  }

  lemma {:induction false} ReadRunStays(a: Memory, b: Memory, n: nat, t: nat, ip: nat)
    requires ip <= n && SameBelow(a, b, n)
    ensures ReadRun(a, n, t, ip) == ReadRun(b, n, t, ip)
    decreases n - ip
  {
    if ip < n { ReadRunStays(a, b, n, t + 255, ip + 1); }
  }

  /** A step looks at nothing behind both the end of the input and the position it leads to. */
  lemma StepStays(j: Job, s: State, mem: Memory)
    requires Valid(j, s) && !s.Halt?
    requires SameBelow(j.mem, mem, j.n) && SameBelow(j.mem, mem, Step(j, s).ip)
    ensures Valid(j.(mem := mem), s) && Step(j.(mem := mem), s) == Step(j, s)
  {
    hide StepMatch, StepMatchNext, StepLoop, CopyMatch, ReadRun, Slice;
    match s
    case Loop(ip, out) => LoopStays(j, ip, out, mem);
    case Match(t, ip, out) => MatchStays(j, t, ip, out, mem);
    case Literals(t, ip, out) => SliceStays(j.mem, mem, ip, t + 3);
    case MatchNext(t, ip, out) => MatchNextStays(j, t, ip, out, mem);
    case _ =>
  }

  lemma LoopStays(j: Job, ip: nat, out: seq<byte>, mem: Memory)
    requires Valid(j, Loop(ip, out)) && SameBelow(j.mem, mem, j.n)
    ensures StepLoop(j.(mem := mem), ip, out) == StepLoop(j, ip, out)
  {
    hide ReadRun;
    if ip < j.n { ReadRunStays(j.mem, mem, j.n, 0, ip + 1); }
  }

  lemma MatchNextStays(j: Job, t: nat, ip: nat, out: seq<byte>, mem: Memory)
    requires Valid(j, MatchNext(t, ip, out))
    requires SameBelow(j.mem, mem, j.n) && SameBelow(j.mem, mem, StepMatchNext(j, t, ip, out).ip)
    ensures StepMatchNext(j.(mem := mem), t, ip, out) == StepMatchNext(j, t, ip, out)
  {
    hide Slice;
    SliceStays(j.mem, mem, ip, t);
  }

  lemma MatchStays(j: Job, t: nat, ip: nat, out: seq<byte>, mem: Memory)
    requires Valid(j, Match(t, ip, out))
    requires SameBelow(j.mem, mem, j.n) && SameBelow(j.mem, mem, StepMatch(j, t, ip, out).ip)
    ensures StepMatch(j.(mem := mem), t, ip, out) == StepMatch(j, t, ip, out)
  {
    hide ReadRun, Distance14;
    ReadRunStays(j.mem, mem, j.n, 0, ip);
    DistanceStays(j.mem, mem, ip);
    if 16 <= t < 64 && t % (if t < 32 then 8 else 32) == 0 {
      DistanceStays(j.mem, mem, ReadRun(j.mem, j.n, 0, ip).ip);
    }
  }

  lemma DistanceStays(a: Memory, b: Memory, ip: nat)
    ensures SameBelow(a, b, ip + 2) ==> Distance14(a, ip) == Distance14(b, ip)
  {
  }

  lemma SliceStays(a: Memory, b: Memory, at: nat, count: nat)
    ensures SameBelow(a, b, at + count) ==> Slice(a, at, count) == Slice(b, at, count)
  {
  }

  lemma {:induction false} RunStays(j: Job, s: State, mem: Memory)
    requires Valid(j, s) && SameBelow(j.mem, mem, j.n)
    requires s.Halt? && s.status.Ok? ==> s.ip == j.n
    requires RunFrom(j, s).status.Ok?
    ensures Valid(j.(mem := mem), s) && RunFrom(j.(mem := mem), s) == RunFrom(j, s)
    decreases Rank(j, s)
  {
    hide Step;
    if !s.Halt? {
      OutputGrows(j, Step(j, s));
      StepStays(j, s, mem);
      RunStays(j, Step(j, s), mem);
    }
  }

  /** A result of Ok does not depend on anything behind the input, although distances are read without a
      check. */
  lemma OkIgnoresTheRest(j: Job, mem: Memory)
    requires 1 <= j.n && SameBelow(j.mem, mem, j.n)
    requires Decompress(j).status.Ok?
    ensures Decompress(j.(mem := mem)) == Decompress(j)
  {
    hide Step, Start;
    StartIsNotTheEnd(j);
    StartStays(j, mem);
    RunStays(j, Start(j), mem);
  }

  lemma StartStays(j: Job, mem: Memory)
    requires 1 <= j.n && SameBelow(j.mem, mem, j.n) && !Start(j).Halt?
    ensures Start(j.(mem := mem)) == Start(j)
  {
    hide Slice;
    if j.mem(0) > 17 { SliceStays(j.mem, mem, 1, j.mem(0) - 17); }
  }
}
