/** The Reed-Solomon code of the key schedule (section 4.3 of the Twofish paper), over GF(256) with the
    polynomial 0x14D. */
module TwofishReedSolomon {
  import opened TwofishBlock

  /** Multiplication by alpha, and division by it. */
  function TimesAlpha(b: octet): octet {
    (b << 1) ^ (if b & 0x80 != 0 then 0x4D else 0)
  }

  function OverAlpha(b: octet): octet {
    (b >> 1) ^ (if b & 1 != 0 then 0xA6 else 0)
  }

  lemma AlphaInverse(b: octet)
    ensures TimesAlpha(OverAlpha(b)) == b && OverAlpha(TimesAlpha(b)) == b
  {
  }

  /** Addition in the field. */
  function Plus(a: octet, b: octet): octet { a ^ b }

  function AlphaSum(b: octet): octet { TimesAlpha(b) ^ OverAlpha(b) }

  /** The two products of the leading coefficient b in TwoFish_RS_rem. */
  function G2(b: word): word {
    ((b << 1) ^ (if b & 0x80 != 0 then 0x14D else 0)) & 0xff
  }

  function G3(b: word): word {
    ((b >> 1) & 0x7f) ^ (if b & 1 != 0 then 0x14D >> 1 else 0) ^ G2(b)
  }

  function Wide(b: octet): word { b as word }

  function Shifted(x: word, g3: word, g2: word, b: word): word {
    (x << 8) ^ (g3 << 24) ^ (g2 << 16) ^ (g3 << 8) ^ b
  }

  /** TwoFish_RS_rem. */
  function RsRem(x: word): word {
    var b := Wide(ByteOf(x, 3));
    Shifted(x, G3(b), G2(b), b)
  }

  lemma Products(b: octet)
    ensures G2(Wide(b)) == Wide(TimesAlpha(b)) && G3(Wide(b)) == Wide(AlphaSum(b))
  {
  }

  lemma Byte0(x: word, g3: octet, g2: octet, b: octet)
    ensures ByteOf(Shifted(x, Wide(g3), Wide(g2), Wide(b)), 0) == b
  {
  }

  lemma Byte1(x: word, g3: octet, g2: octet, b: octet)
    ensures ByteOf(Shifted(x, Wide(g3), Wide(g2), Wide(b)), 1) == Plus(ByteOf(x, 0), g3)
  {
  }

  lemma Byte2(x: word, g3: octet, g2: octet, b: octet)
    ensures ByteOf(Shifted(x, Wide(g3), Wide(g2), Wide(b)), 2) == Plus(ByteOf(x, 1), g2)
  {
  }

  lemma Byte3(x: word, g3: octet, g2: octet, b: octet)
    ensures ByteOf(Shifted(x, Wide(g3), Wide(g2), Wide(b)), 3) == Plus(ByteOf(x, 2), g3)
  {
  }

  /** One step of a division by the generator x^4 + (a + 1/a) x^3 + a x^2 + (a + 1/a) x + 1 of the code: the
      polynomial moves up by a degree, and its leading coefficient is divided out. */
  lemma RsRemDivides(x: word)
    ensures var top, r := ByteOf(x, 3), RsRem(x);
            && ByteOf(r, 3) == Plus(ByteOf(x, 2), AlphaSum(top))
            && ByteOf(r, 2) == Plus(ByteOf(x, 1), TimesAlpha(top))
            && ByteOf(r, 1) == Plus(ByteOf(x, 0), AlphaSum(top))
            && ByteOf(r, 0) == top
  {
    hide ByteOf, TimesAlpha, AlphaSum, G2, G3, Shifted, Plus, Wide;
    var top := ByteOf(x, 3);
    Products(top);
    Byte0(x, AlphaSum(top), TimesAlpha(top), top);
    Byte1(x, AlphaSum(top), TimesAlpha(top), top);
    Byte2(x, AlphaSum(top), TimesAlpha(top), top);
    Byte3(x, AlphaSum(top), TimesAlpha(top), top);
  }

  function RsRems(x: word, n: nat): word {
    if n == 0 then x else RsRem(RsRems(x, n - 1))
  }

  /** The code word for two key words: eight division steps, the second key word added half-way. */
  function RsWord(k0: word, k1: word): word {
    RsRems(Xor(RsRems(k1, 4), k0), 4)
  }

  // ----- the code word as a remainder

  /** Coefficient k of a polynomial over GF(256), given from the constant term up. */
  function Coef(p: seq<octet>, k: int): octet {
    if 0 <= k < |p| then p[k] else 0
  }

  function Bytes4(x: word): seq<octet> {
    [ByteOf(x, 0), ByteOf(x, 1), ByteOf(x, 2), ByteOf(x, 3)]
  }

  /** Coefficient k of t times the generator. */
  function GeneratorTimes(t: octet, k: int): octet {
    if k == 0 || k == 4 then t else if k == 1 || k == 3 then AlphaSum(t) else if k == 2 then TimesAlpha(t) else 0
  }

  /** Coefficient k of the product of q and the generator. */
  function Product(q: seq<octet>, k: int): octet {
    if q == [] then 0 else Plus(Product(q[1..], k - 1), GeneratorTimes(q[0], k))
  }

  /** p is q times the generator, plus r, whose degree is lower than the generator's. */
  ghost predicate Remains(p: seq<octet>, q: seq<octet>, r: word) {
    forall k: int :: Coef(p, k) == Plus(Product(q, k), Coef(Bytes4(r), k))
  }

  lemma PlusZero(a: octet)
    ensures Plus(a, 0) == a && Plus(0, a) == a && Plus(a, a) == 0
  {
  }

  lemma PlusBack(a: octet, b: octet)
    ensures Plus(a, Plus(b, a)) == b
  {
  }

  lemma PlusAssociates(a: octet, b: octet, c: octet)
    ensures Plus(Plus(a, b), c) == Plus(a, Plus(b, c))
  {
  }

  /** x times the register is the leading coefficient times the generator, plus the register after the step. */
  lemma RsRemCoef(x: word, k: int)
    ensures Coef(Bytes4(x), k - 1) == Plus(GeneratorTimes(ByteOf(x, 3), k), Coef(Bytes4(RsRem(x)), k))
  {
    hide ByteOf, AlphaSum, TimesAlpha, Plus, RsRem;
    var t := ByteOf(x, 3);
    RsRemDivides(x);
    if k == 0 || k == 4 { PlusZero(t); }
    else if k == 1 { PlusBack(AlphaSum(t), ByteOf(x, 0)); }
    else if k == 2 { PlusBack(TimesAlpha(t), ByteOf(x, 1)); }
    else if k == 3 { PlusBack(AlphaSum(t), ByteOf(x, 2)); }
    else { PlusZero(0); }
  }

  /** One more division step: the polynomial moves up by a degree, and the quotient takes up the leading
      coefficient. */
  lemma StepRemains(p: seq<octet>, q: seq<octet>, r: word)
    requires Remains(p, q, r)
    ensures Remains([0] + p, [ByteOf(r, 3)] + q, RsRem(r))
  {
    hide ByteOf, GeneratorTimes, Plus, RsRem, Bytes4;
    var t := ByteOf(r, 3);
    forall k: int ensures Coef([0] + p, k) == Plus(Product([t] + q, k), Coef(Bytes4(RsRem(r)), k)) {
      assert Coef([0] + p, k) == Coef(p, k - 1);
      RsRemCoef(r, k);
      assert ([t] + q)[1..] == q;
      PlusAssociates(Product(q, k - 1), GeneratorTimes(t, k), Coef(Bytes4(RsRem(r)), k));
    }
  }

  function ZerosUpTo(n: nat): (z: seq<octet>)
    ensures |z| == n
  {
    if n == 0 then [] else [0] + ZerosUpTo(n - 1)
  }

  lemma {:induction false} StepsRemain(p: seq<octet>, q: seq<octet>, r: word, n: nat) returns (q': seq<octet>)
    requires Remains(p, q, r)
    ensures |q'| == |q| + n && Remains(ZerosUpTo(n) + p, q', RsRems(r, n))
  {
    hide Remains, RsRem, ByteOf;
    if n == 0 {
      q' := q;
      assert ZerosUpTo(0) + p == p;
    } else {
      var q1 := StepsRemain(p, q, r, n - 1);
      var r1 := RsRems(r, n - 1);
      StepRemains(ZerosUpTo(n - 1) + p, q1, r1);
      q' := [ByteOf(r1, 3)] + q1;
      assert [0] + (ZerosUpTo(n - 1) + p) == ZerosUpTo(n) + p;
    }
  }

  lemma XorWords(a0: octet, a1: octet, a2: octet, a3: octet, b0: octet, b1: octet, b2: octet, b3: octet)
    ensures Xor(WordOf(a0, a1, a2, a3), WordOf(b0, b1, b2, b3))
         == WordOf(Plus(a0, b0), Plus(a1, b1), Plus(a2, b2), Plus(a3, b3))
  {
  }

  lemma XorBytes(x: word, y: word)
    ensures ByteOf(Xor(x, y), 0) == Plus(ByteOf(x, 0), ByteOf(y, 0))
    ensures ByteOf(Xor(x, y), 1) == Plus(ByteOf(x, 1), ByteOf(y, 1))
    ensures ByteOf(Xor(x, y), 2) == Plus(ByteOf(x, 2), ByteOf(y, 2))
    ensures ByteOf(Xor(x, y), 3) == Plus(ByteOf(x, 3), ByteOf(y, 3))
  {
    hide ByteOf, WordOf, Xor, Plus;
    BytesWord(x);
    BytesWord(y);
    XorWords(ByteOf(x, 0), ByteOf(x, 1), ByteOf(x, 2), ByteOf(x, 3),
             ByteOf(y, 0), ByteOf(y, 1), ByteOf(y, 2), ByteOf(y, 3));
    WordBytes(Plus(ByteOf(x, 0), ByteOf(y, 0)), Plus(ByteOf(x, 1), ByteOf(y, 1)),
              Plus(ByteOf(x, 2), ByteOf(y, 2)), Plus(ByteOf(x, 3), ByteOf(y, 3)));
  }

  /** Adding to the four lowest coefficients, which are zero, adds to the remainder. */
  lemma WordRemains(high: seq<octet>, q: seq<octet>, r: word, low: word)
    requires Remains(ZerosUpTo(4) + high, q, r)
    ensures Remains(Bytes4(low) + high, q, Xor(r, low))
  {
    hide ByteOf, Xor, Plus, Product;
    var p, p' := ZerosUpTo(4) + high, Bytes4(low) + high;
    FourZeros();
    XorBytes(r, low);
    forall k: int ensures Coef(p', k) == Plus(Product(q, k), Coef(Bytes4(Xor(r, low)), k)) {
      var a, b, c := Product(q, k), Coef(Bytes4(r), k), Coef(Bytes4(low), k);
      assert Coef(p, k) == Plus(a, b);
      PlusAssociates(a, b, c);
      PlusZero(c);
      PlusZero(b);
      PlusZero(Coef(p, k));
      assert Coef(p', k) == Plus(Coef(p, k), c);
    }
  }

  lemma FourZeros()
    ensures ZerosUpTo(4) == [0, 0, 0, 0]
  {
    assert ZerosUpTo(1) == [0] && ZerosUpTo(2) == [0, 0] && ZerosUpTo(3) == [0, 0, 0];
  }

  lemma NothingDivided(x: word)
    ensures Remains(Bytes4(x), [], x)
  {
    hide Plus, Bytes4;
    forall k: int ensures Coef(Bytes4(x), k) == Plus(Product([], k), Coef(Bytes4(x), k)) {
      PlusZero(Coef(Bytes4(x), k));
    }
  }

  /** The code word is the remainder of the polynomial with the eight coefficients in the two words, moved up by
      four degrees, on division by the generator. */
  lemma RsWordIsRemainder(k0: word, k1: word)
    ensures exists q :: |q| == 8 && Remains([0, 0, 0, 0] + (Bytes4(k0) + Bytes4(k1)), q, RsWord(k0, k1))
  {
    hide Remains, RsRems, Bytes4, Xor;
    NothingDivided(k1);
    var q1 := StepsRemain(Bytes4(k1), [], k1, 4);
    WordRemains(Bytes4(k1), q1, RsRems(k1, 4), k0);
    var q := StepsRemain(Bytes4(k0) + Bytes4(k1), q1, Xor(RsRems(k1, 4), k0), 4);
    FourZeros();
  }

  /** _TwoFish_RS_MDS_Encode. */
  method RsEncode(k0: word, k1: word) returns (r: word)
    ensures r == RsWord(k0, k1)
  {
    hide RsRem, Xor;
    r := k1;
    var i: nat := 0;
    while i < 4
      invariant i <= 4 && r == RsRems(k1, i)
    {
      r := RsRem(r);
      i := i + 1;
    }
    r := Xor(r, k0);
    ghost var start := r;
    i := 0;
    while i < 4
      invariant i <= 4 && r == RsRems(start, i)
    {
      r := RsRem(r);
      i := i + 1;
    }
  }
}
