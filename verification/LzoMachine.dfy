/** The safe decompressor as an abstract machine: one step leads from one label of its goto-driven
    body to the next.  The imperative version and the round trip are both proved against this. */
module LzoMachine {
  import opened Bytes
  import opened LzoFormat

  datatype Status = Ok | InputOverrun | OutputOverrun | LookbehindOverrun | EofNotFound | InputNotConsumed

  /** What the decompressor is called with: n input bytes at mem, and room for cap output bytes. */
  datatype Job = Job(mem: Memory, n: nat, cap: nat)

  /** A label of the body with its live variables; out is the output written so far. */
  datatype State =
    | Loop(ip: nat, out: seq<byte>)                          // head of the outer loop
    | Literals(t: nat, ip: nat, out: seq<byte>)              // a run of t literals
    | FirstLiteralRun(ip: nat, out: seq<byte>)               // right after such a run
    | Match(t: nat, ip: nat, out: seq<byte>)                 // opcode t has been read
    | Copy(off: int, len: nat, ip: nat, out: seq<byte>)      // a decoded match
    | MatchDone(ip: nat, out: seq<byte>)
    | MatchNext(t: nat, ip: nat, out: seq<byte>)             // one to three literals
    | Halt(status: Status, ip: nat, out: seq<byte>)

  /** NEED_IP: the comparison is unsigned, so a read position behind the end passes it. */
  predicate NeedIp(j: Job, ip: nat, x: nat) {
    ip <= j.n ==> x <= j.n - ip
  }

  predicate NeedOp(j: Job, out: seq<byte>, x: nat)
    requires |out| <= j.cap
  {
    x <= j.cap - |out|
  }

  function Slice(mem: Memory, at: nat, count: nat): (r: seq<byte>)
    ensures |r| == count && Holds(mem, at, r)
  {
    seq(count, i requires 0 <= i < count => mem(at + i))
  }

  datatype RunResult = Overrun(ip: nat) | Length(t: nat, ip: nat)

  /** A 255-run: t grows by 255 per zero byte and by the first non-zero one. */
  function ReadRun(mem: Memory, n: nat, t: nat, ip: nat): (r: RunResult)
    requires ip <= n
    ensures ip <= r.ip <= n && (r.Length? ==> t < r.t && ip < r.ip)
    decreases n - ip
  {
    if ip == n then Overrun(ip)
    else if mem(ip) == 0 then ReadRun(mem, n, t + 255, ip + 1)
    else Length(t + mem(ip), ip + 1)
  }

  /** The 14-bit distance in the two bytes at ip. */
  function Distance14(mem: Memory, ip: nat): nat {
    mem(ip) / 4 + mem(ip + 1) * 64
  }

  /** The states that runs pass through.  Only the two unguarded distance bytes can carry ip behind the
      end, and the first bytes read there end the run. */
  predicate Valid(j: Job, s: State) {
    && 1 <= j.n
    && |s.out| <= j.cap
    && match s
       case Loop(ip, _) => ip <= j.n + 2
       case Literals(t, ip, _) => 1 <= ip <= j.n && 1 <= t
       case FirstLiteralRun(ip, _) => ip < j.n
       case Match(t, ip, _) => 1 <= ip <= j.n && t < 256
       case Copy(off, len, ip, _) => 2 <= ip <= j.n + 2 && 1 <= len
       case MatchDone(ip, _) => 2 <= ip <= j.n + 2
       case MatchNext(t, ip, _) => ip <= j.n + 2 && 1 <= t <= 3
       case Halt(_, _, _) => true
  }

  function Rank(j: Job, s: State): nat
    requires Valid(j, s)
  {
    match s
    case Halt(_, _, _) => 0
    case Copy(_, _, ip, _) => 3 * (j.n + 10 - ip) + 2
    case MatchDone(ip, _) => 3 * (j.n + 10 - ip) + 1
    case _ => 3 * (j.n + 10 - s.ip)
  }

  /** Every step keeps the bounds, comes closer to the end, never moves a pointer back and only appends
      output; it halts with Ok exactly at the end of the input. */
  predicate Advances(j: Job, s: State, s': State)
    requires Valid(j, s)
  {
    && Valid(j, s')
    && Rank(j, s') < Rank(j, s)
    && s.out <= s'.out && s.ip <= s'.ip
    && (s'.Halt? && s'.status.Ok? ==> s'.ip == j.n)
  }

  function StepLoop(j: Job, ip: nat, out: seq<byte>): (s': State)
    requires Valid(j, Loop(ip, out))
    ensures Advances(j, Loop(ip, out), s')
  {
    if j.n <= ip then Halt(EofNotFound, ip, out) else
    var t := j.mem(ip);
    if t >= 16 then Match(t, ip + 1, out)
    else if t > 0 then Literals(t, ip + 1, out)
    else match ReadRun(j.mem, j.n, 0, ip + 1)
      case Overrun(ip') => Halt(InputOverrun, ip', out)
      case Length(r, ip') => Literals(15 + r, ip', out)
  }

  /** Literals copied to the output, if there is room for them and `ahead` input bytes are left. */
  function StepLiterals(j: Job, count: nat, ahead: nat, ip: nat, out: seq<byte>, next: State): (s': State)
    requires |out| <= j.cap
  {
    if !NeedOp(j, out, count) then Halt(OutputOverrun, ip, out)
    else if !NeedIp(j, ip, ahead) then Halt(InputOverrun, ip, out)
    else next
  }

  function StepFirstLiteralRun(j: Job, ip: nat, out: seq<byte>): (s': State)
    requires Valid(j, FirstLiteralRun(ip, out))
    ensures Advances(j, FirstLiteralRun(ip, out), s')
  {
    var t := j.mem(ip);
    if t >= 16 then Match(t, ip + 1, out)
    else Copy(1 + M2_MAX_OFFSET + t / 4 + j.mem(ip + 1) * 4, 3, ip + 2, out)
  }

  function StepMatch(j: Job, t: nat, ip: nat, out: seq<byte>): (s': State)
    requires Valid(j, Match(t, ip, out))
    ensures Advances(j, Match(t, ip, out), s')
  {
    if t >= 64 then
      Copy(1 + t / 4 % 8 + j.mem(ip) * 8, t / 32 - 1 + 2, ip + 1, out)
    else if t >= 32 then
      if t % 32 > 0 then
        Copy(1 + Distance14(j.mem, ip), t % 32 + 2, ip + 2, out)
      else (match ReadRun(j.mem, j.n, 0, ip)
        case Overrun(ip') => Halt(InputOverrun, ip', out)
        case Length(r, ip') => Copy(1 + Distance14(j.mem, ip'), 31 + r + 2, ip' + 2, out))
    else if t >= 16 then
      var high := t / 8 % 2 * 0x4000;
      if t % 8 > 0 then
        StepM4(j, high + Distance14(j.mem, ip), t % 8, ip + 2, out)
      else (match ReadRun(j.mem, j.n, 0, ip)
        case Overrun(ip') => Halt(InputOverrun, ip', out)
        case Length(r, ip') => StepM4(j, high + Distance14(j.mem, ip'), 7 + r, ip' + 2, out))
    else
      Copy(1 + t / 4 + j.mem(ip) * 4, 2, ip + 1, out)
  }

  /** An M4 match, or the end of the stream when its distance field is zero. */
  function StepM4(j: Job, o: nat, t: nat, ip: nat, out: seq<byte>): State {
    if o == 0 then
      Halt(if ip == j.n then Ok else if ip < j.n then InputNotConsumed else InputOverrun, ip, out)
    else
      Copy(o + 0x4000, t + 2, ip, out)
  }

  function StepCopy(j: Job, off: int, len: nat, ip: nat, out: seq<byte>): (s': State)
    requires Valid(j, Copy(off, len, ip, out))
    ensures Advances(j, Copy(off, len, ip, out), s')
  {
    if off > |out| || off <= 0 then Halt(LookbehindOverrun, ip, out)
    else if !NeedOp(j, out, len) then Halt(OutputOverrun, ip, out)
    else MatchDone(ip, CopyMatch(out, |out| - off, len))
  }

  function StepMatchDone(j: Job, ip: nat, out: seq<byte>): (s': State)
    requires Valid(j, MatchDone(ip, out))
    ensures Advances(j, MatchDone(ip, out), s')
  {
    var t := j.mem(ip - 2) % 4;
    if t == 0 then Loop(ip, out) else MatchNext(t, ip, out)
  }

  /** After one to three literals the next opcode is read before the loop condition is tested. */
  function StepMatchNext(j: Job, t: nat, ip: nat, out: seq<byte>): (s': State)
    requires Valid(j, MatchNext(t, ip, out))
    ensures Advances(j, MatchNext(t, ip, out), s')
  {
    var ip' := ip + t + 1;
    var out' := out + Slice(j.mem, ip, t);
    var next := if ip' < j.n then Match(j.mem(ip + t), ip', out') else Halt(EofNotFound, ip', out');
    StepLiterals(j, t, t + 1, ip, out, next)
  }

  function Step(j: Job, s: State): (s': State)
    requires Valid(j, s) && !s.Halt?
    ensures Advances(j, s, s')
  {
    match s
    case Loop(ip, out) => StepLoop(j, ip, out)
    case Literals(t, ip, out) =>
      StepLiterals(j, t + 3, t + 4, ip, out, FirstLiteralRun(ip + t + 3, out + Slice(j.mem, ip, t + 3)))
    case FirstLiteralRun(ip, out) => StepFirstLiteralRun(j, ip, out)
    case Match(t, ip, out) => StepMatch(j, t, ip, out)
    case Copy(off, len, ip, out) => StepCopy(j, off, len, ip, out)
    case MatchDone(ip, out) => StepMatchDone(j, ip, out)
    case MatchNext(t, ip, out) => StepMatchNext(j, t, ip, out)
  }

  /** The first byte of the stream may announce literals directly. */
  function Start(j: Job): (s: State)
    requires 1 <= j.n
    ensures Valid(j, s)
    ensures s.Halt? ==> !s.status.Ok?
  {
    var t := j.mem(0) - 17;
    if t <= 0 then Loop(0, [])
    else if t < 4 then MatchNext(t, 1, [])
    else StepLiterals(j, t, t + 1, 1, [], FirstLiteralRun(1 + t, Slice(j.mem, 1, t)))
  }

  function RunFrom(j: Job, s: State): (r: State)
    requires Valid(j, s)
    requires s.Halt? && s.status.Ok? ==> s.ip == j.n
    ensures r.Halt? && |r.out| <= j.cap
    ensures r.status.Ok? ==> r.ip == j.n
    decreases Rank(j, s)
  {
    if s.Halt? then s else RunFrom(j, Step(j, s))
  }

  function Decompress(j: Job): (r: State)
    requires 1 <= j.n
    ensures r.Halt? && |r.out| <= j.cap
    ensures r.status.Ok? ==> r.ip == j.n
  {
    RunFrom(j, Start(j))
  }
}
