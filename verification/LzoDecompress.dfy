/** The safe decompressor as it runs: pointers advance, the output buffer is filled in place. */
module LzoDecompress {
  import opened Bytes
  import opened LzoFormat
  import opened LzoMachine

  datatype Label = AtLoop | AtLiterals | AtFirstLiteralRun | AtMatch | AtCopy | AtMatchDone | AtMatchNext | AtEnd

  /** Copying four bytes at once is four single copies when source and destination are four apart. */
  lemma {:induction false} CopyFour(out: seq<byte>, pos: nat, len: nat)
    requires pos + 4 <= |out| && 4 <= len
    ensures CopyMatch(out, pos, len) == CopyMatch(out + out[pos..pos + 4], pos + 4, len - 4)
  {
    var a := out + [out[pos]];
    var b := a + [a[pos + 1]];
    var c := b + [b[pos + 2]];
    var d := c + [c[pos + 3]];
    assert CopyMatch(b, pos + 2, len - 2) == CopyMatch(d, pos + 4, len - 4);
    assert d == out + out[pos..pos + 4];
  }

  /** Four bytes copied at once inside the output; they are read before the first is written. */
  method Copy4(out: array<byte>, op: nat, m: nat)
    requires m + 4 <= op && op + 4 <= out.Length
    modifies out
    ensures out[..op + 4] == old(out[..op]) + old(out[m..m + 4])
    ensures forall i :: op + 4 <= i < out.Length ==> out[i] == old(out[i])
  {
    out[op], out[op + 1], out[op + 2], out[op + 3] := out[m], out[m + 1], out[m + 2], out[m + 3];
  }

  /** The match loop at copy_match: one byte after the other. */
  method CopyMatchByByte(out: array<byte>, start: nat, dist: nat, count: nat) returns (op: nat)
    requires 1 <= dist <= start && start + count <= out.Length
    modifies out
    ensures op == start + count
    ensures out[..op] == CopyMatch(old(out[..start]), start - dist, count)
    ensures forall i :: op <= i < out.Length ==> out[i] == old(out[i])
  {
    var left: nat := count;
    op := start;
    while left > 0
      invariant op + left == start + count && start <= op
      invariant CopyMatch(out[..op], op - dist, left) == CopyMatch(old(out[..start]), start - dist, count)
      invariant forall i :: op <= i < out.Length ==> out[i] == old(out[i])
    {
      ghost var text := out[..op];
      out[op] := out[op - dist];
      op := op + 1;
      assert out[..op] == text + [text[op - 1 - dist]];
      left := left - 1;
    }
  }

  /** The match loop that copies four bytes at once; entered for t >= 6 and a distance of at least 4. */
  method CopyMatchWide(out: array<byte>, start: nat, dist: nat, count: nat) returns (op: nat)
    requires 4 <= dist <= start && start + count <= out.Length && 8 <= count
    modifies out
    ensures op == start + count
    ensures out[..op] == CopyMatch(old(out[..start]), start - dist, count)
    ensures forall i :: op <= i < out.Length ==> out[i] == old(out[i])
  {
    hide CopyMatch;
    var left: nat := count;
    op := start;
    while left >= 4
      invariant op + left == start + count && start <= op
      invariant CopyMatch(out[..op], op - dist, left) == CopyMatch(old(out[..start]), start - dist, count)
      invariant forall i :: op <= i < out.Length ==> out[i] == old(out[i])
    {
      ghost var text := out[..op];
      CopyFour(text, op - dist, left);
      assert text[op - dist..op - dist + 4] == out[op - dist..op - dist + 4];
      Copy4(out, op, op - dist);
      op, left := op + 4, left - 4;
    }
    op := CopyMatchByByte(out, op, dist, left);
  }

  lemma SliceParts(mem: Memory, at: nat, a: nat, b: nat)
    ensures Slice(mem, at, a + b) == Slice(mem, at, a) + Slice(mem, at + a, b)
  {
  }

  lemma Associate4(a: seq<byte>, b: seq<byte>, c: seq<byte>, d: seq<byte>)
    ensures a + b + c + d == a + (b + (c + d))
  {
  }

  lemma AfterLiteralRun(j: Job, ip: nat, out: seq<byte>)
    requires Valid(j, FirstLiteralRun(ip, out))
    ensures var t := j.mem(ip);
            Step(j, FirstLiteralRun(ip, out)) == if t >= 16 then Match(t, ip + 1, out)
            else Copy(1 + M2_MAX_OFFSET + t / 4 + j.mem(ip + 1) * 4, 3, ip + 2, out)
  {
  }

  class Decoder {
    const mem: Memory
    const n: nat
    const cap: nat
    const out: array<byte>
    const wide: bool        // the build that copies four bytes at once
    var at: Label
    var ip: nat
    var op: nat
    var t: nat
    var off: int            // op - m_pos
    var bytewise: bool      // the match goes to the label behind the four-byte loop
    var status: Status
    ghost var reach: nat    // one more than the highest input position read so far

    constructor (mem: Memory, n: nat, out: array<byte>, cap: nat, wide: bool)
      requires 1 <= n && cap <= out.Length
      ensures this.mem == mem && this.n == n && this.out == out && this.cap == cap && this.wide == wide
      ensures at.AtLoop? && op == 0 && ip == 0 && reach == 0
    {
      this.mem, this.n, this.out, this.cap, this.wide := mem, n, out, cap, wide;
      at, ip, op, t, off, bytewise, status := AtLoop, 0, 0, 0, 0, false, Ok;
      reach := 0;
    }

    ghost function TheJob(): Job { Job(mem, n, cap) }

    ghost function Current(): State
      reads this, out
      requires op <= out.Length
    {
      match at
      case AtLoop => Loop(ip, out[..op])
      case AtLiterals => Literals(t, ip, out[..op])
      case AtFirstLiteralRun => FirstLiteralRun(ip, out[..op])
      case AtMatch => Match(t, ip, out[..op])
      case AtCopy => Copy(off, t, ip, out[..op])
      case AtMatchDone => MatchDone(ip, out[..op])
      case AtMatchNext => MatchNext(t, ip, out[..op])
      case AtEnd => Halt(status, ip, out[..op])
    }

    /** The fields stand for the machine state s, and nothing has been read behind both the end of the
        input and the read position. */
    ghost predicate Is(s: State)
      reads this, out
    {
      && op <= cap <= out.Length
      && (reach <= n || reach <= ip)
      && Current() == s
    }

    /** Output is only written between the old and the new write position. */
    twostate predicate OnlyAppends()
      reads this, out
    {
      && old(op) <= op <= out.Length
      && forall i :: op <= i < out.Length ==> out[i] == old(out[i])
    }

    method Get(i: nat) returns (b: byte)
      modifies `reach
      ensures b == mem(i) && reach == if old(reach) <= i then i + 1 else old(reach)
    {
      b := mem(i);
      reach := if reach <= i then i + 1 else reach;
    }

    method Fail(s: Status)
      requires op <= out.Length
      modifies `at, `status
      ensures Current() == Halt(s, ip, out[..op])
    {
      at, status := AtEnd, s;
    }

    /** One literal. */
    method CopyLiteral()
      requires op < out.Length
      modifies `ip, `op, `reach, out
      ensures ip == old(ip) + 1 && op == old(op) + 1
      ensures out[..op] == old(out[..op]) + [mem(old(ip))]
      ensures OnlyAppends()
      ensures reach == old(reach) || reach == ip
    {
      var b: int := Get(ip);
      out[op] := b;
      op, ip := op + 1, ip + 1;
      assert out[..op] == out[..op - 1] + [out[op - 1]];
    }

    /** Four bytes copied at once from the input. */
    method CopyLiteral4()
      requires op + 4 <= out.Length
      modifies `ip, `op, `reach, out
      ensures ip == old(ip) + 4 && op == old(op) + 4
      ensures out[..op] == old(out[..op]) + Slice(mem, old(ip), 4)
      ensures OnlyAppends()
      ensures reach == old(reach) || reach == ip
    {
      var b0: int := Get(ip);
      var b1: int := Get(ip + 1);
      var b2 := Get(ip + 2);
      var b3 := Get(ip + 3);
      out[op], out[op + 1], out[op + 2], out[op + 3] := b0, b1, b2, b3;
      op, ip := op + 4, ip + 4;
      assert out[..op] == old(out[..op]) + [b0, b1, b2, b3];
    }

    method CopyLiteralsByByte(count: nat)
      requires op + count <= out.Length
      modifies `ip, `op, `reach, out
      ensures ip == old(ip) + count && op == old(op) + count
      ensures out[..op] == old(out[..op]) + Slice(mem, old(ip), count)
      ensures OnlyAppends()
      ensures reach == old(reach) || reach <= ip
    {
      var left: nat := count;
      while left > 0
        invariant left <= count && ip == old(ip) + (count - left) && op == old(op) + (count - left)
        invariant out[..op] == old(out[..op]) + Slice(mem, old(ip), count - left)
        invariant OnlyAppends()
        invariant reach == old(reach) || reach <= ip
      {
        CopyLiteral();
        left := left - 1;
      }
    }

    /** The run of t + 3 literals, in the build that copies four at a time. */
    method CopyLiteralsWide(run: nat)
      requires op + run + 3 <= out.Length && 1 <= run
      modifies `ip, `op, `reach, out
      ensures ip == old(ip) + run + 3 && op == old(op) + run + 3
      ensures out[..op] == old(out[..op]) + Slice(mem, old(ip), run + 3)
      ensures OnlyAppends()
      ensures reach == old(reach) || reach <= ip
    {
      hide Slice;
      SliceParts(mem, ip, 4, run - 1);
      ghost var before, four := out[..op], Slice(mem, ip, 4);
      CopyLiteral4();
      var left := CopyLiteralsByFour(run - 1);
      ghost var fours := Slice(mem, old(ip) + 4, run - 1 - left);
      assert out[..op] == before + four + fours;
      CopyLiteralsByByte(left);
      Associate4(before, four, fours, Slice(mem, old(ip) + 3 + run - left, left));
    }

    method CopyLiteralsByFour(count: nat) returns (left: nat)
      requires op + count <= out.Length
      modifies `ip, `op, `reach, out
      ensures left <= count && ip == old(ip) + (count - left) && op == old(op) + (count - left)
      ensures out[..op] == old(out[..op]) + Slice(mem, old(ip), count - left)
      ensures Slice(mem, old(ip), count) == Slice(mem, old(ip), count - left) + Slice(mem, ip, left)
      ensures OnlyAppends()
      ensures reach == old(reach) || reach <= ip
    {
      left := count;
      while left >= 4
        invariant left <= count && ip == old(ip) + (count - left) && op == old(op) + (count - left)
        invariant out[..op] == old(out[..op]) + Slice(mem, old(ip), count - left)
        invariant OnlyAppends()
        invariant reach == old(reach) || reach <= ip
      {
        CopyLiteral4();
        left := left - 4;
      }
    }

    /** The 255-run behind an opcode without a length; ok is false at the end of the input. */
    method ReadLength(base: nat) returns (ok: bool)
      requires ip <= n
      requires reach <= n || reach <= ip
      modifies `ip, `t, `reach
      ensures old(ip) <= ip <= n
      ensures ok ==> base < t && ReadRun(mem, n, 0, old(ip)) == Length(t - base, ip)
      ensures !ok ==> ReadRun(mem, n, 0, old(ip)) == Overrun(ip)
      ensures reach <= n || reach <= ip
    {
      t := 0;
      if n - ip < 1 { return false; }
      var b: int := Get(ip);
      while b == 0
        invariant old(ip) <= ip < n && b == mem(ip)
        invariant ReadRun(mem, n, t, ip) == ReadRun(mem, n, 0, old(ip))
        invariant reach <= n || reach <= ip
        decreases n - ip
      {
        t := t + 255;
        ip := ip + 1;
        if n - ip < 1 { return false; }
        b := Get(ip);
      }
      b := Get(ip);
      t := t + base + b;
      ip := ip + 1;
      return true;
    }

    /** What lies behind the write position is as it was. */
    twostate predicate RestKept()
      reads this, out
    {
      forall i :: op <= i < out.Length ==> out[i] == old(out[i])
    }

    // Each label's code up to the next label is one step of the machine.

    method DoLoop(ghost s: State)
      requires Is(s) && Valid(TheJob(), s) && s.Loop?
      modifies this
      ensures Is(Step(TheJob(), s))
    {
      hide StepMatch, StepMatchNext, StepCopy, Slice, Advances;
      if n <= ip { Fail(EofNotFound); return; }
      var b: int := Get(ip);
      ip, t := ip + 1, b;
      if t >= 16 { at := AtMatch; return; }
      if t == 0 {
        var ok := ReadLength(15);
        if !ok { Fail(InputOverrun); return; }
      }
      at := AtLiterals;
    }

    method DoLiterals(ghost s: State)
      requires Is(s) && Valid(TheJob(), s) && s.Literals?
      modifies this, out
      ensures Is(Step(TheJob(), s))
      ensures RestKept()
    {
      if cap - op < t + 3 { Fail(OutputOverrun); return; }
      if n - ip < t + 4 { Fail(InputOverrun); return; }
      if wide { CopyLiteralsWide(t); } else { CopyLiteralsByByte(t + 3); }
      at := AtFirstLiteralRun;
    }

    method DoFirstLiteralRun(ghost s: State)
      requires Is(s) && Valid(TheJob(), s) && s.FirstLiteralRun?
      modifies this
      ensures Is(Step(TheJob(), s))
    {
      hide Step, Valid, Advances;
      AfterLiteralRun(TheJob(), ip, out[..op]);
      var b: int := Get(ip);
      ip, t := ip + 1, b;
      if t >= 16 { at := AtMatch; return; }
      b := Get(ip);
      ip := ip + 1;
      off, t, bytewise := 1 + M2_MAX_OFFSET + t / 4 + b * 4, 3, true;
      at := AtCopy;
    }

    /** Reads the two distance bytes, without a check. */
    method GetDistance14() returns (d: nat)
      modifies `ip, `reach
      ensures d == Distance14(mem, old(ip)) && ip == old(ip) + 2
      ensures reach == old(reach) || reach == ip
    {
      var b0: int := Get(ip);
      var b1: int := Get(ip + 1);
      d := b0 / 4 + b1 * 64;
      ip := ip + 2;
    }

    method DoMatch(ghost s: State)
      requires Is(s) && Valid(TheJob(), s) && s.Match?
      modifies this
      ensures Is(Step(TheJob(), s))
    {
      if t >= 64 {
        var b: int := Get(ip);
        ip := ip + 1;
        off, t, bytewise := 1 + t / 4 % 8 + b * 8, t / 32 - 1 + 2, true;
        at := AtCopy;
      } else if t >= 32 {
        DoM3(s);
      } else if t >= 16 {
        DoM4(s);
      } else {
        var b: int := Get(ip);
        ip := ip + 1;
        off, t, bytewise := 1 + t / 4 + b * 4, 2, true;
        at := AtCopy;
      }
    }

    method DoM3(ghost s: State)
      requires Is(s) && Valid(TheJob(), s) && s.Match? && 32 <= t < 64
      modifies this
      ensures Is(Step(TheJob(), s))
    {
      hide StepMatchNext, StepCopy, StepLoop, Slice, ReadRun, StepM4, Advances;
      t := t % 32;
      if t == 0 {
        var ok := ReadLength(31);
        if !ok { Fail(InputOverrun); return; }
      }
      var d := GetDistance14();
      off, t, bytewise := 1 + d, t + 2, false;
      at := AtCopy;
    }

    method DoM4(ghost s: State)
      requires Is(s) && Valid(TheJob(), s) && s.Match? && 16 <= t < 32
      modifies this
      ensures Is(Step(TheJob(), s))
    {
      hide StepMatchNext, StepCopy, StepLoop, Slice, ReadRun, StepM4, Advances;
      off := t / 8 % 2 * 0x4000;
      t := t % 8;
      if t == 0 {
        var ok := ReadLength(7);
        if !ok { Fail(InputOverrun); return; }
      }
      FinishM4();
    }

    /** The distance bytes of an M4 match, or of the end marker. */
    method FinishM4()
      requires 0 <= off && op <= cap <= out.Length && (reach <= n || reach <= ip)
      modifies this
      ensures Is(StepM4(TheJob(), old(off) + Distance14(mem, old(ip)), old(t), old(ip) + 2, old(out[..op])))
    {
      var d := GetDistance14();
      off := off + d;
      if off == 0 {
        Fail(if ip == n then Ok else if ip < n then InputNotConsumed else InputOverrun);
        return;
      }
      off, t, bytewise := off + 0x4000, t + 2, false;
      at := AtCopy;
    }

    method DoCopy(ghost s: State)
      requires Is(s) && Valid(TheJob(), s) && s.Copy?
      modifies this, out
      ensures Is(Step(TheJob(), s))
      ensures RestKept()
    {
      hide CopyMatch;
      if op - off < 0 || op - off >= op { Fail(LookbehindOverrun); return; }
      if cap - op < t { Fail(OutputOverrun); return; }
      if wide && !bytewise && t >= 8 && off >= 4 {
        op := CopyMatchWide(out, op, off, t);
      } else {
        op := CopyMatchByByte(out, op, off, t);
      }
      at := AtMatchDone;
    }

    method DoMatchDone(ghost s: State)
      requires Is(s) && Valid(TheJob(), s) && s.MatchDone?
      modifies this
      ensures Is(Step(TheJob(), s))
    {
      var b: int := Get(ip - 2);
      t := b % 4;
      at := if t == 0 then AtLoop else AtMatchNext;
    }

    method DoMatchNext(ghost s: State)
      requires Is(s) && Valid(TheJob(), s) && s.MatchNext?
      modifies this, out
      ensures Is(Step(TheJob(), s))
      ensures RestKept()
    {
      hide StepMatch, StepCopy, StepLoop, Slice, Advances;
      if cap - op < t { Fail(OutputOverrun); return; }
      if ip <= n && n - ip < t + 1 { Fail(InputOverrun); return; }
      CopyLiteralsByByte(t);
      var b: int := Get(ip);
      ip, t := ip + 1, b;
      if ip < n { at := AtMatch; } else { Fail(EofNotFound); }
    }

    /** The first byte may announce literals. */
    method DoStart()
      requires at.AtLoop? && ip == 0 && op == 0 && reach == 0 && 1 <= n && cap <= out.Length
      modifies this, out
      ensures Is(Start(TheJob()))
      ensures RestKept()
    {
      var b: int := Get(ip);
      if b > 17 {
        ip, t := 1, b - 17;
        if t < 4 { at := AtMatchNext; return; }
        if cap - op < t { Fail(OutputOverrun); return; }
        if n - ip < t + 1 { Fail(InputOverrun); return; }
        CopyLiteralsByByte(t);
        at := AtFirstLiteralRun;
      }
    }

    method DoLabel(ghost s: State)
      requires Is(s) && Valid(TheJob(), s) && !s.Halt?
      modifies this, out
      ensures Is(Step(TheJob(), s))
      ensures RestKept()
    {
      match at
      case AtLoop => DoLoop(s);
      case AtLiterals => DoLiterals(s);
      case AtFirstLiteralRun => DoFirstLiteralRun(s);
      case AtMatch => DoMatch(s);
      case AtCopy => DoCopy(s);
      case AtMatchDone => DoMatchDone(s);
      case AtMatchNext => DoMatchNext(s);
    }

    /** The loop with the body's gotos. */
    method Execute()
      requires at.AtLoop? && ip == 0 && op == 0 && reach == 0 && 1 <= n && cap <= out.Length
      modifies this, out
      ensures Is(Decompress(TheJob()))
      ensures RestKept()
    {
      hide Step;
      DoStart();
      ghost var s := Start(TheJob());
      while !at.AtEnd?
        invariant Is(s) && Valid(TheJob(), s)
        invariant s.Halt? && s.status.Ok? ==> s.ip == n
        invariant RunFrom(TheJob(), s) == Decompress(TheJob())
        invariant RestKept()
        decreases Rank(TheJob(), s)
      {
        DoLabel(s);
        s := Step(TheJob(), s);
      }
    }
  }

  /** lzo1x_decompress_safe.  On every exit the reported length counts the bytes written, nothing behind
      them is touched, and the result is what the machine computes -- in both builds.  After Ok the whole
      input, and nothing behind it, has been read. */
  method DecompressSafe(mem: Memory, n: nat, out: array<byte>, cap: nat, wide: bool)
    returns (status: Status, outLen: nat, ghost reach: nat)
    requires 1 <= n && cap <= out.Length
    modifies out
    ensures outLen <= cap
    ensures Decompress(Job(mem, n, cap)).out == out[..outLen] && Decompress(Job(mem, n, cap)).status == status
    ensures forall i :: outLen <= i < out.Length ==> out[i] == old(out[i])
    ensures status.Ok? ==> reach <= n
  {
    var d := new Decoder(mem, n, out, cap, wide);
    d.Execute();
    status, outLen, reach := d.status, d.op, d.reach;
  }
}
