/** The chaining code as it runs: a queue of one block delays the output, and a flush pointer of its own
    decides where finished blocks go. */
module TwofishStream {
  import opened TwofishBlock
  import opened TwofishCbc

  /** s with the bytes b in place from index at on. */
  function Overwrite(s: seq<octet>, at: nat, b: seq<octet>): (r: seq<octet>)
    requires at + |b| <= |s|
    ensures |r| == |s|
  {
    s[..at] + b + s[at + |b|..]
  }

  lemma OverwriteNothing(s: seq<octet>, at: nat, b: seq<octet>)
    requires at + |b| <= |s|
    ensures Overwrite(s, at, b[..0]) == s && b[..|b|] == b
  {
  }

  lemma OverwriteNext(s: seq<octet>, at: nat, b: seq<octet>, i: nat)
    requires at + |b| <= |s| && i < |b|
    ensures Overwrite(s, at, b[..i + 1]) == Overwrite(s, at, b[..i])[at + i := b[i]]
  {
  }

  /** Nothing but the bytes from low to high differs. */
  ghost predicate SameOutside(a: seq<octet>, b: seq<octet>, low: nat, high: nat)
    requires low <= high <= |a|
  {
    |a| == |b| && a[..low] == b[..low] && a[high..] == b[high..]
  }

  lemma OverwriteBefore(s: seq<octet>, at: nat, b: seq<octet>, c: seq<octet>)
    requires |b| <= at && at + |c| <= |s|
    ensures Overwrite(Overwrite(s, at, c), at - |b|, b) == s[..at - |b|] + b + (c + s[at + |c|..])
  {
    var w := Overwrite(s, at, c);
    assert w[..at - |b|] == s[..at - |b|] && w[at..] == c + s[at + |c|..];
  }

  /** The text behind a front that itself ends with the text a. */
  lemma TextBehind(front: seq<octet>, base: nat, a: seq<octet>, b: seq<octet>, rest: seq<octet>)
    requires base <= |front| && front[base..] == a
    ensures var now := front + b + rest;
            now[base..|front| + |b|] == a + b && now[|front| + |b|..] == rest && now[..base] == front[..base]
  {
    assert front + b + rest == front[..base] + (a + b) + rest;
  }

  /** Writing a block behind the text r and then flushing the last block of r in front of it. */
  lemma FlushBehind(was: seq<octet>, base: nat, r: seq<octet>, next: Block)
    requires BLOCK_SIZE <= |r| && base + |r| + BLOCK_SIZE <= |was|
    requires was[base..base + |r| - BLOCK_SIZE] == r[..|r| - BLOCK_SIZE]
    ensures var at := base + |r|;
            var now := Overwrite(Overwrite(was, at, next), at - BLOCK_SIZE, r[|r| - BLOCK_SIZE..]);
            now[base..at] == r && SameOutside(was, now, base, at + BLOCK_SIZE)
  {
    hide Overwrite;
    var at, cut := base + |r|, |r| - BLOCK_SIZE;
    var front, rest := was[..base + cut], was[at + BLOCK_SIZE..];
    var now := Overwrite(Overwrite(was, at, next), at - BLOCK_SIZE, r[cut..]);
    assert r[..cut] + r[cut..] == r;
    OverwriteBefore(was, at, r[cut..], next);
    TextBehind(front, base, r[..cut], r[cut..], next + rest);
    assert now[at + BLOCK_SIZE..] == now[at..][BLOCK_SIZE..] == rest;
  }

  lemma StoreFirst(was: seq<octet>, base: nat, b: Block)
    requires base + BLOCK_SIZE <= |was|
    ensures SameOutside(was, Overwrite(was, base, b), base, base + BLOCK_SIZE)
  {
  }

  /** The last whole block and the partial block end up behind the flushed text. */
  lemma FlushStolen(was: seq<octet>, base: nat, front: seq<octet>, scratch: seq<octet>, b: Block, tail: seq<octet>)
    requires base + |front| + BLOCK_SIZE + |scratch| <= |was| && |tail| <= |scratch|
    requires was[base..base + |front|] == front
    ensures var at := base + |front| + BLOCK_SIZE;
            var now := Overwrite(Overwrite(Overwrite(was, at, scratch), at - BLOCK_SIZE, b), at, tail);
            now[base..at + |tail|] == front + b + tail && SameOutside(was, now, base, at + |scratch|)
  {
    var at := base + |front| + BLOCK_SIZE;
    var w1 := Overwrite(was, at, scratch);
    var w2 := Overwrite(w1, at - BLOCK_SIZE, b);
    var now := Overwrite(w2, at, tail);
    assert w1[..at - BLOCK_SIZE] == was[..at - BLOCK_SIZE] && w1[at + |scratch|..] == was[at + |scratch|..];
    assert w2[..at] == was[..at - BLOCK_SIZE] + b && w2[at + |scratch|..] == was[at + |scratch|..];
    assert now[..at + |tail|] == was[..at - BLOCK_SIZE] + b + tail && now[at + |scratch|..] == was[at + |scratch|..];
    assert now[base..at + |tail|] == now[..at + |tail|][base..];
    assert now[..base] == now[..at + |tail|][..base];
  }

  /** Chaining in either direction over whole blocks. */
  function Chained(key: Key, decrypt: bool, s: seq<octet>): (r: seq<octet>)
    requires Whole(s)
    ensures |r| == |s|
  {
    if decrypt then CbcDecrypt(key, s) else CbcEncrypt(key, s)
  }

  /** The result block that the input block b adds. */
  function NextBlock(key: Key, decrypt: bool, s: seq<octet>, b: Block): Block
    requires Whole(s)
  {
    if decrypt then XorBlock(Decrypt(key, b), LastBlock(s))
    else Encrypt(key, XorBlock(b, LastBlock(Chained(key, decrypt, s))))
  }

  lemma ChainedNext(key: Key, decrypt: bool, s: seq<octet>, b: Block)
    requires Whole(s)
    ensures Whole(s + b) && s + b != [] && Front(s + b) == s && LastBlock(s + b) == b
    ensures Chained(key, decrypt, s + b) == Chained(key, decrypt, s) + NextBlock(key, decrypt, s, b)
  {
    hide Encrypt, Decrypt, XorBlock;
    assert Front(s + b) == s && LastBlock(s + b) == b;
  }

  /** The output bytes that processing s needs: encryption first writes a partial block as a whole one. */
  function Room(decrypt: bool, s: seq<octet>): nat {
    if decrypt then |s| else |Padded(s)|
  }

  function RawRoom(decrypt: bool, s: seq<octet>): nat {
    if 0 < |s| <= BLOCK_SIZE then BLOCK_SIZE else Room(decrypt, s)
  }

  lemma NothingChained(key: Key, decrypt: bool)
    ensures Chained(key, decrypt, []) == []
  {
  }

  /** The complete result, with stealing. */
  function Result(key: Key, decrypt: bool, s: seq<octet>): (r: seq<octet>)
    requires BLOCK_SIZE <= |s|
    ensures |r| == |s|
  {
    if decrypt then CtsDecrypt(key, s) else CtsEncrypt(key, s)
  }

  /** The block that a lone partial block x decrypts to, after an earlier text has left prev behind. */
  function LoneBlock(key: Key, prev: Block, x: seq<octet>): Block
    requires |x| < BLOCK_SIZE
  {
    XorBlock(Decrypt(key, RestoredBlock(x, Decrypt(key, ZERO_BLOCK))), prev)
  }

  /** What is flushed for it: the block, and its beginning once more. */
  function LoneText(key: Key, prev: Block, x: seq<octet>): (r: seq<octet>)
    requires |x| < BLOCK_SIZE
    ensures |r| == BLOCK_SIZE + |x|
  {
    LoneBlock(key, prev, x) + LoneBlock(key, prev, x)[..|x|]
  }

  lemma LoneSteps(key: Key, prev: Block, x: seq<octet>, d: Block)
    requires |x| < BLOCK_SIZE && d == Decrypt(key, ZERO_BLOCK)
    ensures LoneBlock(key, prev, x) == XorBlock(Decrypt(key, x + d[|x|..]), prev)
  {
    hide Decrypt, XorBlock;
  }

  /** With nothing left behind, a lone partial block is completed from the decrypted zero block and decrypted
      like a single block; what is left behind shows in every byte of the result. */
  lemma LeftoverShows(key: Key, prev: Block, x: seq<octet>)
    requires |x| < BLOCK_SIZE
    ensures LoneBlock(key, ZERO_BLOCK, x) == Decrypt(key, x + Decrypt(key, Zeros(BLOCK_SIZE))[|x|..])
    ensures forall i :: 0 <= i < BLOCK_SIZE ==> LoneBlock(key, prev, x)[i] == LoneBlock(key, ZERO_BLOCK, x)[i] ^ prev[i]
  {
    hide Decrypt;
    LoneSteps(key, prev, x, Decrypt(key, ZERO_BLOCK));
    assert ZERO_BLOCK == Zeros(BLOCK_SIZE);
    XorZeroBlock(Decrypt(key, x + Decrypt(key, ZERO_BLOCK)[|x|..]));
  }

  /** The block is flushed over the partial plaintext stored at the same place, and then its beginning. */
  lemma FlushLone(was: seq<octet>, pn: seq<octet>, b: Block)
    requires |pn| < BLOCK_SIZE && BLOCK_SIZE + |pn| <= |was|
    ensures var stored := Overwrite(Overwrite(was, 0, pn), 0, b);
            && stored[..|pn|] == b[..|pn|]
            && Overwrite(stored, BLOCK_SIZE, b[..|pn|])[..BLOCK_SIZE + |pn|] == b + b[..|pn|]
  {
  }

  class TwoFish {
    const key: Key
    var buf: array<octet>      // the buffer that output points into
    var output: nat
    var qBlockPlain: Block
    var qBlockCrypt: Block
    var prevCipher: Block
    var qBlockDefined: bool
    var dontflush: bool

    constructor (key: Key, buf: array<octet>)
      ensures this.key == key && this.buf == buf && output == 0 && !dontflush
      ensures !qBlockDefined && qBlockPlain == ZERO_BLOCK
    {
      this.key, this.buf := key, buf;
      output, qBlockDefined, dontflush := 0, false, false;
      qBlockPlain, qBlockCrypt, prevCipher := ZERO_BLOCK, ZERO_BLOCK, ZERO_BLOCK;
    }

    /** The input blocks s have been processed into the buffer from base on: all but the last result block
        are flushed, the last one waits in the queue. */
    ghost predicate Processed(decrypt: bool, base: nat, s: seq<octet>)
      reads this, buf
    {
      && !dontflush
      && Whole(s)
      && base + |s| <= buf.Length
      && (qBlockDefined <==> s != [])
      && output == base + (if s == [] then 0 else |s| - BLOCK_SIZE)
      && buf[..][base..output] == Chained(key, decrypt, s)[..output - base]
      && (s != [] ==> qBlockCrypt == LastBlock(Chained(key, decrypt, s)))
      && (decrypt ==> qBlockPlain == LastBlock(s) && (s != [] ==> prevCipher == LastBlock(Front(s))))
    }

    method FlushOutput(b: seq<octet>)
      requires !dontflush && output + |b| <= buf.Length
      modifies `output, `dontflush, buf
      ensures !dontflush && output == old(output) + |b|
      ensures buf[..] == Overwrite(old(buf[..]), old(output), b)
    {
      hide Overwrite;
      var i: nat := 0;
      OverwriteNothing(buf[..], output, b);
      while i < |b| && !dontflush
        invariant i <= |b| && !dontflush && output == old(output) + i
        invariant buf[..] == Overwrite(old(buf[..]), old(output), b[..i])
      {
        OverwriteNext(old(buf[..]), old(output), b, i);
        buf[output] := b[i];
        output, i := output + 1, i + 1;
      }
      dontflush := false;
    }

    /** The bytes of a block stored where they belong. */
    method StoreAt(at: nat, b: seq<octet>)
      requires at + |b| <= buf.Length
      modifies buf
      ensures buf[..] == Overwrite(old(buf[..]), at, b)
    {
      hide Overwrite;
      var i: nat := 0;
      OverwriteNothing(buf[..], at, b);
      while i < |b|
        invariant i <= |b|
        invariant buf[..] == Overwrite(old(buf[..]), at, b[..i])
      {
        OverwriteNext(old(buf[..]), at, b, i);
        buf[at + i] := b[i];
        i := i + 1;
      }
    }

    method Push(p: Block, c: Block)
      requires !dontflush && (qBlockDefined ==> output + BLOCK_SIZE <= buf.Length)
      modifies this, buf
      ensures buf == old(buf) && !dontflush && qBlockDefined
      ensures qBlockPlain == p && qBlockCrypt == c && prevCipher == old(qBlockPlain)
      ensures output == old(output) + if old(qBlockDefined) then BLOCK_SIZE else 0
      ensures buf[..] == if old(qBlockDefined) then Overwrite(old(buf[..]), old(output), old(qBlockCrypt))
                         else old(buf[..])
    {
      if qBlockDefined { FlushOutput(qBlockCrypt); }
      prevCipher := qBlockPlain;
      qBlockPlain, qBlockCrypt := p, c;
      qBlockDefined := true;
    }

    method Pop() returns (p: Block, c: Block)
      modifies `qBlockDefined
      ensures p == qBlockPlain && c == qBlockCrypt && !qBlockDefined
    {
      p, c := qBlockPlain, qBlockCrypt;
      qBlockDefined := false;
    }

    /** The xor of plaintext or decrypted block with the chaining value. */
    method XorLoop(a: Block, b: Block) returns (r: Block)
      ensures r == XorBlock(a, b)
    {
      var x: seq<octet> := [];
      while |x| < BLOCK_SIZE
        invariant |x| <= BLOCK_SIZE && x == XorBlock(a, b)[..|x|]
      {
        x := x + [a[|x|] ^ b[|x|]];
      }
      r := x;
    }

    /** The chaining value is taken from the queue, unless this is the first block. */
    method ComputeBlock(inp: Block, decrypt: bool, ghost base: nat, ghost s: seq<octet>) returns (pn: Block, out: Block)
      requires Processed(decrypt, base, s)
      ensures out == NextBlock(key, decrypt, s, inp)
      ensures decrypt ==> pn == inp
    {
      hide Encrypt, Decrypt, XorBlock, CbcEncrypt, CbcDecrypt;
      pn := inp;
      if !decrypt && qBlockDefined {
        pn := XorLoop(inp, qBlockCrypt);
      }
      out := BlockCrypt16(key, pn, decrypt);
      if decrypt && qBlockDefined {
        out := XorLoop(out, qBlockPlain);
      }
      XorZeroBlock(inp);
      XorZeroBlock(out);
    }

    /** The plaintext of the partial block: its bytes xored with the decrypted block before it. */
    method XorPartial(inp: seq<octet>, d: Block) returns (r: seq<octet>)
      requires |inp| < BLOCK_SIZE
      ensures r == XorBlock(d, RestoredBlock(inp, d))[..|inp|]
    {
      r := [];
      while |r| < |inp|
        invariant |r| <= |inp| && r == XorBlock(d, RestoredBlock(inp, d))[..|r|]
      {
        XorOctetCommutes(inp[|r|], d[|r|]);
        r := r + [inp[|r|] ^ d[|r|]];
      }
    }

    /** A full block: chained, written in place behind the blocks before it, and queued. */
    method CryptFullBlock(inp: Block, at: nat, decrypt: bool, ghost base: nat, ghost s: seq<octet>)
      requires Processed(decrypt, base, s) && at == base + |s| && at + BLOCK_SIZE <= buf.Length
      modifies this, buf
      ensures buf == old(buf) && Processed(decrypt, base, s + inp)
      ensures SameOutside(old(buf[..]), buf[..], base, at + BLOCK_SIZE)
    {
      hide NextBlock, Chained, Overwrite, SameOutside, Processed;
      ProcessedMeans(decrypt, base, s);
      ghost var r, was := Chained(key, decrypt, s), buf[..];
      var pn, out := ComputeBlock(inp, decrypt, base, s);
      if s != [] { FlushBehind(was, base, r, out); } else { StoreFirst(was, base, out); }
      StoreAt(at, out);
      Push(pn, out);
      OneMoreProcessed(decrypt, base, s, inp);
    }

    lemma ProcessedMeans(decrypt: bool, base: nat, s: seq<octet>)
      requires Processed(decrypt, base, s)
      ensures !dontflush && Whole(s) && base + |s| <= buf.Length && (qBlockDefined <==> s != [])
      ensures output == base + if s == [] then 0 else |s| - BLOCK_SIZE
      ensures var r := Chained(key, decrypt, s);
              s != [] ==> buf[..][base..base + |r| - BLOCK_SIZE] == r[..|r| - BLOCK_SIZE]
                          && qBlockCrypt == r[|r| - BLOCK_SIZE..]
      ensures decrypt ==> qBlockPlain == LastBlock(s)
    {
      hide CbcEncrypt, CbcDecrypt;
    }

    lemma OneMoreProcessed(decrypt: bool, base: nat, s: seq<octet>, inp: Block)
      requires !dontflush && qBlockDefined && Whole(s)
      requires output == base + |s| && base + |s| + BLOCK_SIZE <= buf.Length
      requires buf[..][base..base + |s|] == Chained(key, decrypt, s)
      requires qBlockCrypt == NextBlock(key, decrypt, s, inp)
      requires decrypt ==> qBlockPlain == inp && prevCipher == LastBlock(s)
      ensures Processed(decrypt, base, s + inp)
    {
      hide NextBlock, Chained;
      ChainedNext(key, decrypt, s, inp);
    }

    /** The new block goes to its place, into the queue and out to the flush pointer, one block before. */
    method StoreAndFlush(at: nat, written: seq<octet>, p: Block, c: Block)
      requires !dontflush && !qBlockDefined && output + BLOCK_SIZE == at
      requires at + |written| <= buf.Length
      modifies this, buf
      ensures buf == old(buf) && !dontflush && output == at
      ensures buf[..] == Overwrite(Overwrite(old(buf[..]), at, written), at - BLOCK_SIZE, c)
      ensures buf[at..at + |written|] == written
    {
      StoreAt(at, written);
      Push(p, c);
      FlushOutput(qBlockCrypt);
    }

    /** A partial last block on encryption: the last ciphertext block is popped, takes up the padding, and
        its beginning becomes the end of the ciphertext. */
    method EncryptPartial(inp: seq<octet>, at: nat, ghost base: nat, ghost s: seq<octet>)
      requires Processed(false, base, s) && s != [] && 0 < |inp| < BLOCK_SIZE
      requires at == base + |s| && at + BLOCK_SIZE <= buf.Length
      modifies this, buf
      ensures buf == old(buf) && !dontflush && !qBlockDefined && output == at + |inp|
      ensures buf[..][base..at + |inp|] == CtsEncrypt(key, s + inp)
      ensures SameOutside(old(buf[..]), buf[..], base, at + BLOCK_SIZE)
    {
      hide Encrypt, XorBlock, CbcEncrypt, CtsEncrypt, Overwrite, SameOutside;
      ghost var was, c := buf[..], CbcEncrypt(key, s);
      FlushedFront(false, base, s);
      var pnMinusOne, cnMinusOne := Pop();
      var pn := XorLoop(inp + Zeros(BLOCK_SIZE - |inp|), cnMinusOne);
      var out := BlockCrypt16(key, pn, false);
      StealOnEncrypt(key, s, inp);
      FlushStolen(was, base, Front(c), out, out, cnMinusOne[..|inp|]);
      StoreAndFlush(at, out, pn, out);
      FlushOutput(cnMinusOne[..|inp|]);
      qBlockDefined := false;
    }

    /** A partial last block on decryption: the block before it is decrypted for a second time, from the
        restored ciphertext. */
    method DecryptPartial(inp: seq<octet>, at: nat, ghost base: nat, ghost s: seq<octet>)
      requires Processed(true, base, s) && s != [] && 0 < |inp| < BLOCK_SIZE
      requires at == base + |s| && at + |inp| <= buf.Length
      modifies this, buf
      ensures buf == old(buf) && !dontflush && !qBlockDefined && output == at + |inp|
      ensures buf[..][base..at + |inp|] == CtsDecrypt(key, s + inp)
      ensures SameOutside(old(buf[..]), buf[..], base, at + |inp|)
    {
      hide Decrypt, XorBlock, CbcDecrypt, CtsDecrypt, Overwrite, SameOutside;
      ghost var was, front := buf[..], CbcDecrypt(key, Front(s));
      FlushedFront(true, base, s);
      var cnMinusOne, pnMinusOne := Pop();
      var d := BlockCrypt16(key, cnMinusOne, true);
      var pn := XorPartial(inp, d);
      cnMinusOne := inp + d[|inp|..];
      pnMinusOne := BlockCrypt16(key, cnMinusOne, true);
      pnMinusOne := XorLoop(pnMinusOne, prevCipher);
      StealOnDecrypt(key, s, inp);
      FlushStolen(was, base, front, pn, pnMinusOne, pn);
      StoreAndFlush(at, pn, cnMinusOne, pnMinusOne);
      FlushOutput(buf[at..at + |inp|]);
      qBlockDefined := false;
    }

    /** A partial block with nothing before it: the zero block of the reset queue takes the place of the block
        before, and the chaining value is what an earlier text left behind. */
    method DecryptLone(inp: seq<octet>)
      requires !dontflush && !qBlockDefined && qBlockPlain == ZERO_BLOCK && output == 0
      requires 0 < |inp| < BLOCK_SIZE && BLOCK_SIZE + |inp| <= buf.Length
      modifies this, buf
      ensures buf == old(buf) && !dontflush && !qBlockDefined && output == BLOCK_SIZE + |inp|
      ensures buf[..output] == LoneText(key, old(prevCipher), inp)
    {
      hide Decrypt, XorBlock, Overwrite, RestoredBlock, LoneBlock;
      ghost var was := buf[..];
      var cnMinusOne, pnMinusOne := Pop();
      var d := BlockCrypt16(key, cnMinusOne, true);
      var pn := XorPartial(inp, d);
      cnMinusOne := inp + d[|inp|..];
      pnMinusOne := BlockCrypt16(key, cnMinusOne, true);
      pnMinusOne := XorLoop(pnMinusOne, prevCipher);
      LoneSteps(key, prevCipher, inp, d);
      FlushLone(was, pn, pnMinusOne);
      StoreAt(0, pn);
      Push(cnMinusOne, pnMinusOne);
      FlushOutput(qBlockCrypt);
      FlushOutput(buf[0..|inp|]);
      qBlockDefined := false;
      assert buf[..output] == buf[..][..output];
    }

    /** Before the last block, exactly the results of the blocks in front of it are flushed. */
    lemma FlushedFront(decrypt: bool, base: nat, s: seq<octet>)
      requires Processed(decrypt, base, s) && s != []
      ensures output == base + |s| - BLOCK_SIZE
      ensures buf[..][base..output] == Front(Chained(key, decrypt, s))
      ensures decrypt ==> buf[..][base..output] == CbcDecrypt(key, Front(s))
    {
      hide Decrypt, Encrypt, XorBlock;
    }

    /** _TwoFish_BlockCrypt. */
    method BlockCrypt(inp: seq<octet>, at: nat, decrypt: bool, ghost base: nat, ghost s: seq<octet>)
      requires Processed(decrypt, base, s) && 0 < |inp| <= BLOCK_SIZE && (|inp| == BLOCK_SIZE || s != [])
      requires at == base + |s| && at + Room(decrypt, inp) <= buf.Length
      modifies this, buf
      ensures buf == old(buf) && SameOutside(old(buf[..]), buf[..], base, at + Room(decrypt, inp))
      ensures |inp| == BLOCK_SIZE ==> Processed(decrypt, base, s + inp)
      ensures |inp| < BLOCK_SIZE ==> Finished(decrypt, base, s + inp)
      ensures (qBlockDefined <==> |inp| == BLOCK_SIZE) && !dontflush
    {
      hide SameOutside, CtsEncrypt, CtsDecrypt, CbcEncrypt, CbcDecrypt, Chained, Padded;
      if |inp| == BLOCK_SIZE {
        CryptFullBlock(inp, at, decrypt, base, s);
      } else if decrypt {
        DecryptPartial(inp, at, base, s);
      } else {
        EncryptPartial(inp, at, base, s);
      }
    }

    /** The same, as seen by a caller who leaves room up to high. */
    method BlockWithin(inp: seq<octet>, at: nat, decrypt: bool, ghost base: nat, ghost s: seq<octet>, ghost high: nat)
      requires Processed(decrypt, base, s) && 0 < |inp| <= BLOCK_SIZE && (|inp| == BLOCK_SIZE || s != [])
      requires at == base + |s| && at + Room(decrypt, inp) <= high <= buf.Length
      modifies this, buf
      ensures buf == old(buf) && SameOutside(old(buf[..]), buf[..], base, high)
      ensures |inp| == BLOCK_SIZE ==> Processed(decrypt, base, s + inp)
      ensures |inp| < BLOCK_SIZE ==> Finished(decrypt, base, s + inp)
      ensures (qBlockDefined <==> |inp| == BLOCK_SIZE) && !dontflush
    {
      hide SameOutside, Processed, Finished, Room;
      ghost var before := buf[..];
      SameAtFirst(before, base, high);
      BlockCrypt(inp, at, decrypt, base, s);
      SameWider(before, before, buf[..], base, at + Room(decrypt, inp), high);
    }

    /** The complete result has been flushed, and nothing is queued. */
    ghost predicate Finished(decrypt: bool, base: nat, s: seq<octet>)
      reads this, buf
    {
      && BLOCK_SIZE <= |s| && base + |s| <= buf.Length
      && !dontflush && output == base + |s|
      && buf[..][base..base + |s|] == Result(key, decrypt, s)
    }

    /** The block that still waits in the queue after whole blocks. */
    method FlushQueue(ghost decrypt: bool, ghost base: nat, ghost s: seq<octet>)
      requires Processed(decrypt, base, s) && s != []
      modifies `output, `dontflush, buf
      ensures Finished(decrypt, base, s) && SameOutside(old(buf[..]), buf[..], base, base + |s|)
    {
      hide CbcEncrypt, CbcDecrypt;
      ghost var r, was := Chained(key, decrypt, s), buf[..];
      FlushedFront(decrypt, base, s);
      assert r == Front(r) + LastBlock(r);
      FlushOutput(qBlockCrypt);
      assert buf[..][..base + |s|] == was[..base + |s| - BLOCK_SIZE] + LastBlock(r);
      assert buf[..][base..base + |s|] == buf[..][..base + |s|][base..];
    }

    /** _TwoFish_CryptRawCBC: the last block is kept out of the loop, even when it is whole. */
    method CryptRawCBC(inp: seq<octet>, at: nat, decrypt: bool, ghost base: nat, ghost s: seq<octet>) returns (rl: nat)
      requires Processed(decrypt, base, s) && at == base + |s| && inp != [] && BLOCK_SIZE <= |s| + |inp|
      requires base + Room(decrypt, s + inp) <= buf.Length
      modifies this, buf
      ensures rl == |inp| && buf == old(buf)
      ensures Finished(decrypt, base, s + inp)
      ensures SameOutside(old(buf[..]), buf[..], base, base + Room(decrypt, s + inp))
    {
      hide SameOutside, Processed, Finished, Room;
      rl := |inp|;
      var i: nat, to: nat := 0, at;
      ghost var high := base + Room(decrypt, s + inp);
      assert inp[..0] == [] && s + [] == s;
      assert Whole(s) by { ProcessedIsWhole(decrypt, base, s); }
      RoomParts(decrypt, s, inp, 0);
      SameAtFirst(buf[..], base, high);
      while |inp| - i > BLOCK_SIZE
        invariant i % BLOCK_SIZE == 0 && i < |inp| && to == at + i && buf == old(buf)
        invariant Processed(decrypt, base, s + inp[..i])
        invariant SameOutside(old(buf[..]), buf[..], base, high)
      {
        ghost var before := buf[..];
        assert s + inp[..i] + inp[i..i + BLOCK_SIZE] == s + inp[..i + BLOCK_SIZE];
        RoomParts(decrypt, s, inp, i);
        BlockWithin(inp[i..i + BLOCK_SIZE], to, decrypt, base, s + inp[..i], high);
        SameTwice(old(buf[..]), before, buf[..], base, high);
        i, to := i + BLOCK_SIZE, to + BLOCK_SIZE;
      }
      ghost var before := buf[..];
      assert s + inp[..i] + inp[i..] == s + inp;
      RoomParts(decrypt, s, inp, i);
      BlockWithin(inp[i..], to, decrypt, base, s + inp[..i], high);
      SameTwice(old(buf[..]), before, buf[..], base, high);
      if qBlockDefined && !dontflush {
        ghost var between := buf[..];
        FlushQueue(decrypt, base, s + inp);
        SameWider(old(buf[..]), between, buf[..], base, base + |s + inp|, high);
      }
    }

    method ResetCBC()
      modifies `qBlockDefined, `qBlockPlain
      ensures !qBlockDefined && qBlockPlain == ZERO_BLOCK
    {
      qBlockDefined, qBlockPlain := false, ZERO_BLOCK;
    }

    /** Up to one block: padded with the zeros of the reset queue, and not chained. */
    method CryptRaw16(inp: seq<octet>, decrypt: bool) returns (r: nat)
      requires 0 < |inp| <= BLOCK_SIZE <= buf.Length && qBlockPlain == ZERO_BLOCK
      modifies this, buf
      ensures r == BLOCK_SIZE && buf == old(buf)
      ensures buf[BLOCK_SIZE..] == old(buf[BLOCK_SIZE..])
      ensures buf[..r] == if decrypt then RawDecrypt(key, inp) else RawEncrypt(key, inp)
    {
      hide Encrypt, Decrypt, Padded, RawEncrypt, RawDecrypt, Overwrite;
      RawShort(key, inp);
      qBlockPlain := inp + qBlockPlain[|inp|..];
      qBlockCrypt := BlockCrypt16(key, qBlockPlain, decrypt);
      OverwriteFirst(buf[..], qBlockCrypt);
      ghost var was := buf[..];
      StoreAt(0, qBlockCrypt);
      assert buf[..BLOCK_SIZE] == buf[..][..BLOCK_SIZE];
      assert buf[BLOCK_SIZE..] == buf[..][BLOCK_SIZE..] && old(buf[BLOCK_SIZE..]) == was[BLOCK_SIZE..];
      r := BLOCK_SIZE;
    }

    /** TwoFishEncryptRaw and TwoFishDecryptRaw; nothing is written behind the room for the result. */
    method CryptRaw(inp: seq<octet>, out: array<octet>, decrypt: bool) returns (r: nat)
      requires !dontflush
      requires RawRoom(decrypt, inp) <= out.Length
      modifies this, out
      ensures r == if 0 < |inp| < BLOCK_SIZE then BLOCK_SIZE else |inp|
      ensures r <= out.Length && out[..r] == if decrypt then RawDecrypt(key, inp) else RawEncrypt(key, inp)
      ensures out[RawRoom(decrypt, inp)..] == old(out[RawRoom(decrypt, inp)..])
    {
      hide CtsEncrypt, CtsDecrypt, CbcEncrypt, CbcDecrypt;
      ResetCBC();
      buf, output := out, 0;
      if |inp| == 0 { return 0; }
      if |inp| > BLOCK_SIZE {
        assert [] + inp == inp && buf[..][0..0] == [];
        NothingChained(key, decrypt);
        ghost var was := out[..];
        r := CryptRawCBC(inp, 0, decrypt, 0, []);
        SameBehind(was, out[..], RawRoom(decrypt, inp));
        assert out[RawRoom(decrypt, inp)..] == out[..][RawRoom(decrypt, inp)..];
        assert out[..r] == out[..][0..0 + |inp|];
      } else {
        r := CryptRaw16(inp, decrypt);
      }
    }

    lemma ProcessedIsWhole(decrypt: bool, base: nat, s: seq<octet>)
      requires Processed(decrypt, base, s)
      ensures Whole(s)
    {
    }
  }

  lemma RawShort(key: Key, inp: seq<octet>)
    requires 0 < |inp| <= BLOCK_SIZE
    ensures inp + ZERO_BLOCK[|inp|..] == Padded(inp)
    ensures |Padded(inp)| == BLOCK_SIZE
    ensures RawEncrypt(key, inp) == Encrypt(key, Padded(inp)) && RawDecrypt(key, inp) == Decrypt(key, Padded(inp))
  {
    hide Encrypt, Decrypt, Padded;
    PaddedByZeros(inp, ZERO_BLOCK);
  }

  lemma PaddedByZeros(inp: seq<octet>, z: Block)
    requires 0 < |inp| <= BLOCK_SIZE && forall i :: 0 <= i < BLOCK_SIZE ==> z[i] == 0
    ensures |Padded(inp)| == BLOCK_SIZE && inp + z[|inp|..] == Padded(inp)
  {
    assert z[|inp|..] == Zeros(BLOCK_SIZE - |inp|);
  }

  lemma OverwriteFirst(s: seq<octet>, b: seq<octet>)
    requires |b| <= |s|
    ensures Overwrite(s, 0, b)[..|b|] == b && Overwrite(s, 0, b)[|b|..] == s[|b|..]
  {
  }

  /** The last block or partial block ends where the room ends. */
  lemma RoomParts(decrypt: bool, s: seq<octet>, inp: seq<octet>, i: nat)
    requires Whole(s) && i % BLOCK_SIZE == 0 && i < |inp|
    ensures Room(decrypt, s + inp) == |s| + i + Room(decrypt, inp[i..])
    ensures |inp[i..]| <= Room(decrypt, inp[i..])
    ensures i + BLOCK_SIZE <= |inp| ==> Room(decrypt, inp[i..i + BLOCK_SIZE]) == BLOCK_SIZE
  {
    hide Padded;
    SameRemainder(|s| + i, |inp| - i);
  }

  lemma SameRemainder(k: nat, n: nat)
    requires k % BLOCK_SIZE == 0
    ensures (k + n) % BLOCK_SIZE == n % BLOCK_SIZE
  {
  }

  lemma SameAtFirst(a: seq<octet>, low: nat, high: nat)
    requires low <= high <= |a|
    ensures SameOutside(a, a, low, high)
  {
  }

  lemma SameBehind(a: seq<octet>, b: seq<octet>, high: nat)
    requires high <= |a| && SameOutside(a, b, 0, high)
    ensures |b| == |a| && b[high..] == a[high..]
  {
  }

  lemma SameTwice(a: seq<octet>, b: seq<octet>, c: seq<octet>, low: nat, high: nat)
    requires low <= high <= |a| && |a| == |b|
    requires SameOutside(a, b, low, high) && SameOutside(b, c, low, high)
    ensures SameOutside(a, c, low, high)
  {
  }

  lemma SameWider(a: seq<octet>, b: seq<octet>, c: seq<octet>, low: nat, high: nat, top: nat)
    requires low <= high <= top <= |a| && |a| == |b|
    requires SameOutside(a, b, low, top) && SameOutside(b, c, low, high)
    ensures SameOutside(a, c, low, top)
  {
    assert c[top..] == c[high..][top - high..] && b[top..] == b[high..][top - high..];
  }
}
