/** How the machine reads the parts of a stream: runs, headers, opcodes and literals. */
module LzoDecoding {
  import opened Bytes
  import opened LzoFormat
  import opened LzoMachine

  lemma HoldsPart(mem: Memory, at: nat, s: seq<byte>, k: nat, part: seq<byte>)
    requires Holds(mem, at, s) && k + |part| <= |s| && s[k..k + |part|] == part
    ensures Holds(mem, at + k, part)
  {
    forall i | 0 <= i < |part| ensures mem(at + k + i) == part[i] {
      assert mem(at + (k + i)) == s[k + i];
    }
  }

  lemma {:induction false} ReadRunDecodes(j: Job, t: nat, ip: nat, x: nat)
    requires x > 0 && ip + |Run(x)| <= j.n
    requires Holds(j.mem, ip, Run(x))
    ensures ReadRun(j.mem, j.n, t, ip) == Length(t + x, ip + |Run(x)|)
    decreases x
  {
    var run := Run(x);
    assert j.mem(ip + 0) == run[0];
    if x > 255 {
      HoldsPart(j.mem, ip, run, 1, Run(x - 255));
      ReadRunDecodes(j, t + 255, ip + 1, x - 255);
    }
  }

  /** The run continues with the state that one step leads to. */
  lemma Advance(j: Job, s: State, next: State)
    requires Valid(j, s) && !s.Halt? && Step(j, s) == next
    ensures RunFrom(j, s) == RunFrom(j, next)
  {
    hide Step;
  }

  lemma HeaderDecodes(j: Job, ip: nat, out: seq<byte>, n: nat)
    requires Valid(j, Loop(ip, out)) && 4 <= n && Holds(j.mem, ip, LitHeader(n)) && ip + |LitHeader(n)| < j.n
    ensures Step(j, Loop(ip, out)) == Literals(n - 3, ip + |LitHeader(n)|, out)
  {
    hide StepMatch, StepMatchNext, StepCopy, StepMatchDone, StepLiterals;
    var header := LitHeader(n);
    assert j.mem(ip + 0) == header[0];
    if n > 18 {
      HoldsPart(j.mem, ip, header, 1, Run(n - 18));
      ReadRunDecodes(j, 0, ip + 1, n - 18);
    }
  }

  lemma LiteralRunDecodes(j: Job, at: nat, out: seq<byte>, lits: seq<byte>)
    requires 4 <= |lits| && Valid(j, Literals(|lits| - 3, at, out)) && |out| + |lits| <= j.cap
    requires Holds(j.mem, at, lits) && at + |lits| < j.n
    ensures Step(j, Literals(|lits| - 3, at, out)) == FirstLiteralRun(at + |lits|, out + lits)
    ensures Valid(j, FirstLiteralRun(at + |lits|, out + lits))
  {
    hide StepMatch, StepMatchNext, StepCopy, StepMatchDone, StepLoop;
    assert Slice(j.mem, at, |lits|) == lits;
  }

  /** One to three literals, counted in the low bits of the match code before them. */
  lemma FewLiteralsDecode(j: Job, ip: nat, out: seq<byte>, lits: seq<byte>)
    requires Valid(j, MatchDone(ip, out)) && 1 <= |lits| <= 3 && |out| + |lits| <= j.cap
    requires j.mem(ip - 2) % 4 == |lits| && Holds(j.mem, ip, lits) && ip + |lits| + 1 < j.n
    ensures RunFrom(j, MatchDone(ip, out)) == RunFrom(j, Match(j.mem(ip + |lits|), ip + |lits| + 1, out + lits))
  {
    hide StepMatch, StepLoop, StepCopy, RunFrom;
    Advance(j, MatchDone(ip, out), MatchNext(|lits|, ip, out));
    assert Slice(j.mem, ip, |lits|) == lits;
    Advance(j, MatchNext(|lits|, ip, out), Match(j.mem(ip + |lits|), ip + |lits| + 1, out + lits));
  }

  lemma Quarter(q: nat, low: nat)
    requires low <= 3
    ensures (q * 4 + low) / 4 == q
  {
  }

  lemma Fields14(o: nat)
    ensures o % 64 + o / 64 % 256 * 64 == o % 0x4000
  {
    var h, q := o / 0x4000, o % 0x4000;
    assert o / 64 == h * 256 + q / 64;
  }

  /** The opcode byte of an M3 or M4 match carries the length, or zero and then a 255-run follows. */
  lemma LongOpcodeDecodes(j: Job, marker: byte, maxLen: nat, len: nat, ip: nat)
    requires (maxLen == M3_MAX_LEN && marker == M3_MARKER)
          || (maxLen == M4_MAX_LEN && marker % 8 == 0 && 16 <= marker < 32)
    requires 3 <= len && Holds(j.mem, ip, LongOpcode(marker, maxLen, len))
    requires ip + |LongOpcode(marker, maxLen, len)| <= j.n
    ensures j.mem(ip) == marker + if len <= maxLen then len - 2 else 0
    ensures len > maxLen ==>
              ReadRun(j.mem, j.n, 0, ip + 1) == Length(len - maxLen, ip + |LongOpcode(marker, maxLen, len)|)
  {
    var opcode := LongOpcode(marker, maxLen, len);
    assert j.mem(ip + 0) == opcode[0];
    if len > maxLen {
      HoldsPart(j.mem, ip, opcode, 1, Run(len - maxLen));
      ReadRunDecodes(j, 0, ip + 1, len - maxLen);
    }
  }

  lemma M2Fields(length: nat, bits: nat, low: nat)
    requires bits < 8 && low < 4
    ensures var t := length * 32 + bits * 4 + low; t / 32 == length && t / 4 % 8 == bits
  {
    var t := length * 32 + bits * 4 + low;
    assert t / 4 == length * 8 + bits;
  }

  lemma M4Fields(high: nat, bits: nat)
    requires high < 2 && bits < 8
    ensures var t := M4_MARKER + high * 8 + bits; t / 8 % 2 == high && t % 8 == bits && 16 <= t < 32
  {
  }

  /** What an opcode from 16 to 31 leads to: a match, or the end when the distance field is zero. */
  lemma M4Step(j: Job, high: nat, bits: nat, len: nat, ip: nat, k: nat, out: seq<byte>)
    requires 1 <= ip <= j.n && |out| <= j.cap && high < 2 && bits < 8 && 1 <= k
    requires if bits > 0 then len == bits + 2 && k == 1
             else len > M4_MAX_LEN && ReadRun(j.mem, j.n, 0, ip) == Length(len - M4_MAX_LEN, ip + k - 1)
    ensures StepMatch(j, M4_MARKER + high * 8 + bits, ip, out)
         == StepM4(j, high * 0x4000 + Distance14(j.mem, ip - 1 + k), len - 2, ip - 1 + k + 2, out)
  {
    hide ReadRun, Distance14, StepM4;
    M4Fields(high, bits);
  }

  lemma CopyStep(j: Job, off: nat, len: nat, ip: nat, out: seq<byte>)
    requires Valid(j, Copy(off, len, ip, out)) && 1 <= off <= |out| && |out| + len <= j.cap
    ensures Step(j, Copy(off, len, ip, out)) == MatchDone(ip, CopyMatch(out, |out| - off, len))
  {
  }
}
