/** Every stream the decompressor accepts, as a program of instructions: literal runs, the five forms of
    matches, and the end. */
module LzoPrograms {
  import opened Bytes
  import opened LzoFormat

  /** What came before decides how an opcode below 16 is read: as a literal run, as a three-byte match at a
      long distance, or as a two-byte match at a short one. */
  datatype Context = AtLoop | AfterRun | AfterFew

  datatype Form = M1Near | M1Far | M2 | M3 | M4

  /** Up to three literals belong to the match in front of them. */
  datatype Program =
    | Stop(len: nat, low: nat)
    | Emit(lits: seq<byte>, rest: Program)
    | Repeat(form: Form, off: nat, len: nat, lits: seq<byte>, rest: Program)

  /** A stream may start with 1 to 238 literals that its first byte announces; a first byte of 17 or less does
      not. */
  datatype Source = Plain(p: Program) | First(lits: seq<byte>, p: Program)

  predicate Fits(form: Form, off: nat, len: nat) {
    match form
    case M1Near => len == 2 && 1 <= off <= 0x400
    case M1Far => len == 3 && M2_MAX_OFFSET < off <= M2_MAX_OFFSET + 0x400
    case M2 => 3 <= len <= M2_MAX_LEN && 1 <= off <= M2_MAX_OFFSET
    case M3 => 3 <= len && 1 <= off <= M3_MAX_OFFSET
    case M4 => 3 <= len && M3_MAX_OFFSET < off <= M4_MAX_OFFSET
  }

  predicate Allowed(ctx: Context, form: Form) {
    (form.M1Near? ==> ctx.AfterFew?) && (form.M1Far? ==> ctx.AfterRun?)
  }

  function AfterCopy(lits: seq<byte>): Context {
    if lits == [] then AtLoop else AfterFew
  }

  /** The program makes sense behind size bytes of output: forms stand where they are allowed, and no match
      looks behind the beginning. */
  predicate Proper(ctx: Context, size: nat, p: Program)
    decreases p
  {
    match p
    case Stop(len, low) => 3 <= len && low <= 3
    case Emit(lits, rest) => ctx.AtLoop? && 4 <= |lits| && Proper(AfterRun, size + |lits|, rest)
    case Repeat(form, off, len, lits, rest) =>
      && Allowed(ctx, form) && Fits(form, off, len) && off <= size && |lits| <= 3
      && Proper(AfterCopy(lits), size + len + |lits|, rest)
  }

  /** The output after the program has run behind the output so far. */
  function Meaning(ctx: Context, out: seq<byte>, p: Program): (r: seq<byte>)
    requires Proper(ctx, |out|, p)
    ensures |out| <= |r|
    decreases p
  {
    match p
    case Stop(_, _) => out
    case Emit(lits, rest) => Meaning(AfterRun, out + lits, rest)
    case Repeat(_, off, len, lits, rest) => Meaning(AfterCopy(lits), CopyMatch(out, |out| - off, len) + lits, rest)
  }

  /** Two distance bytes with a literal count in the low bits of the first. */
  function DistanceBytes(o: nat, low: nat): (r: seq<byte>)
    requires low <= 3
    ensures |r| == 2 && r[0] % 4 == low
  {
    [(o % 64) * 4 + low, (o / 64) % 256]
  }

  function CopyCode(form: Form, off: nat, len: nat, low: nat): (r: seq<byte>)
    requires Fits(form, off, len) && low <= 3
    ensures 2 <= |r| && r[|r| - 2] % 4 == low
    ensures 16 <= r[0] <==> !form.M1Near? && !form.M1Far?
  {
    hide LongOpcode, DistanceBytes;
    match form
    case M1Near => [(off - 1) % 4 * 4 + low, (off - 1) / 4]
    case M1Far => [(off - 1 - M2_MAX_OFFSET) % 4 * 4 + low, (off - 1 - M2_MAX_OFFSET) / 4]
    case M2 => [(len - 1) * 32 + (off - 1) % 8 * 4 + low, (off - 1) / 8]
    case M3 => LongOpcode(M3_MARKER, M3_MAX_LEN, len) + DistanceBytes(off - 1, low)
    case M4 =>
      LongOpcode(M4_MARKER + (off - 0x4000) / 0x4000 * 8, M4_MAX_LEN, len) + DistanceBytes(off - 0x4000, low)
  }

  function EndCode(len: nat, low: nat): (r: seq<byte>)
    requires 3 <= len && low <= 3
    ensures 3 <= |r| && 16 <= r[0]
  {
    LongOpcode(M4_MARKER, M4_MAX_LEN, len) + [low, 0]
  }

  /** The bytes of a program. */
  function Spell(ctx: Context, size: nat, p: Program): (r: seq<byte>)
    requires Proper(ctx, size, p)
    ensures 3 <= |r|
    ensures ctx.AfterFew? || ctx.AfterRun? || 16 <= r[0] || p.Emit?
    decreases p
  {
    match p
    case Stop(len, low) => EndCode(len, low)
    case Emit(lits, rest) => LitHeader(|lits|) + lits + Spell(AfterRun, size + |lits|, rest)
    case Repeat(form, off, len, lits, rest) =>
      CopyCode(form, off, len, |lits|) + lits + Spell(AfterCopy(lits), size + len + |lits|, rest)
  }

  function FirstContext(lits: seq<byte>): Context {
    if |lits| < 4 then AfterFew else AfterRun
  }

  predicate ProperSource(s: Source) {
    match s
    case Plain(p) => Proper(AtLoop, 0, p) && (p.Stop? ==> p.len == 3 || M4_MAX_LEN < p.len)
    case First(lits, p) => 1 <= |lits| <= 238 && Proper(FirstContext(lits), |lits|, p)
  }

  function SourceMeaning(s: Source): seq<byte>
    requires ProperSource(s)
  {
    match s
    case Plain(p) => Meaning(AtLoop, [], p)
    case First(lits, p) => Meaning(FirstContext(lits), lits, p)
  }

  function SourceSpell(s: Source): seq<byte>
    requires ProperSource(s)
  {
    match s
    case Plain(p) => Spell(AtLoop, 0, p)
    case First(lits, p) => [17 + |lits|] + lits + Spell(FirstContext(lits), |lits|, p)
  }
}
