/** The field GF(2^8) of lib/fec.c.  A byte is its eight bits, lowest first: the
    coefficients of a polynomial over GF(2).  Addition is exclusive or; the reference
    product `Mul` is shift-and-add modulo x^8 + x^4 + x^3 + x^2 + 1. */
module GaloisField {

  datatype Bits = Nil | Bit(low: bool, rest: Bits)

  function Len(x: Bits): (r: nat) {
    match x case Nil => 0 case Bit(_, s) => 1 + Len(s)
  }

  function Zeros(n: nat): (r: Bits)
    ensures Len(r) == n
  {
    if n == 0 then Nil else Bit(false, Zeros(n - 1))
  }

  type Byte = x: Bits | Len(x) == 8 witness Zeros(8)

  predicate AllZero(x: Bits) {
    match x case Nil => true case Bit(b, s) => !b && AllZero(s)
  }

  lemma {:induction false} AllZeroIsZeros(x: Bits)
    ensures AllZero(x) <==> x == Zeros(Len(x))
  {
    if x.Bit? { AllZeroIsZeros(x.rest); }
  }

  predicate IsOne(x: Bits) { x.Bit? && x.low && AllZero(x.rest) }

  // The two constants are defined by what they are rather than spelled out bit by bit, which
  // keeps the verifier from multiplying by them symbolically.

  function MakeZero(): (r: Byte)
    ensures AllZero(r)
  {
    AllZeroIsZeros(Zeros(8));
    assert forall x: Byte, y: Byte :: AllZero(x) && AllZero(y) ==> x == y by {
      forall x: Byte ensures AllZero(x) ==> x == Zeros(8) { AllZeroIsZeros(x); }
    }
    var z: Byte :| AllZero(z);
    z
  }

  function MakeOne(): (r: Byte)
    ensures IsOne(r)
  {
    AllZeroIsZeros(Zeros(7));
    assert IsOne(Bit(true, Zeros(7)));
    assert forall x: Byte, y: Byte :: IsOne(x) && IsOne(y) ==> x == y by {
      forall x: Byte ensures IsOne(x) ==> x == Bit(true, Zeros(7)) { if IsOne(x) { AllZeroIsZeros(x.rest); } }
    }
    var z: Byte :| IsOne(z);
    z
  }

  const ZERO: Byte := MakeZero()
  const ONE: Byte := MakeOne()

  /** x^8 = 1 + x^2 + x^3 + x^4 */
  const REDUCTION: Byte :=
    Bit(true, Bit(false, Bit(true, Bit(true, Bit(true, Bit(false, Bit(false, Bit(false, Nil))))))))

  /** Bitwise exclusive or. */
  function Xor(x: Bits, y: Bits): (r: Bits) {
    match x
    case Nil => y
    case Bit(a, s) =>
      match y
      case Nil => x
      case Bit(b, t) => Bit(a != b, Xor(s, t))
  }

  lemma XorLen(x: Bits, y: Bits)
    requires Len(x) == Len(y)
    ensures Len(Xor(x, y)) == Len(x)
  {}

  function Add(x: Byte, y: Byte): (r: Byte) {
    XorLen(x, y);
    Xor(x, y)
  }

  lemma XorComm(x: Bits, y: Bits)
    ensures Xor(x, y) == Xor(y, x)
  {}

  lemma XorAssoc(x: Bits, y: Bits, z: Bits)
    ensures Xor(Xor(x, y), z) == Xor(x, Xor(y, z))
  {}

  lemma {:induction false} XorSelf(x: Bits)
    ensures Xor(x, x) == Zeros(Len(x))
    ensures Xor(Zeros(Len(x)), x) == x
  {
    if x.Bit? { XorSelf(x.rest); }
  }

  lemma AddZero(x: Byte)
    ensures Add(x, ZERO) == x && Add(ZERO, x) == x && Add(x, x) == ZERO
  {
    XorSelf(x);
    ZeroByte();
    XorComm(x, ZERO);
  }

  lemma ZeroByte()
    ensures ZERO == Zeros(8) && ONE == Bit(true, Zeros(7)) && ZERO != ONE
  {
    AllZeroIsZeros(ZERO);
    AllZeroIsZeros(ONE.rest);
  }

  lemma AddAssoc(x: Byte, y: Byte, z: Byte)
    ensures Add(Add(x, y), z) == Add(x, Add(y, z))
  {
    XorAssoc(x, y, z);
  }

  lemma AddComm(x: Byte, y: Byte)
    ensures Add(x, y) == Add(y, x)
  {
    XorComm(x, y);
  }

  lemma AddCancel(x: Byte, y: Byte)
    ensures Add(Add(x, y), y) == x
    ensures Add(x, y) == ZERO ==> x == y
  {
    AddAssoc(x, y, y);
    AddZero(x); AddZero(y);
  }

  lemma AddSwap(a: Byte, b: Byte, c: Byte, d: Byte)
    ensures Add(Add(a, b), Add(c, d)) == Add(Add(a, c), Add(b, d))
  {
    AddAssoc(a, b, Add(c, d)); AddAssoc(b, c, d); AddComm(b, c);
    AddAssoc(c, b, d); AddAssoc(a, c, Add(b, d));
  }

  // ---- multiplication by the primitive element alpha = x

  function Top(x: Bits): (r: bool)
    requires Len(x) > 0
  {
    if x.rest.Nil? then x.low else Top(x.rest)
  }

  function Init(x: Bits): (r: Bits)
    requires Len(x) > 0
  {
    if x.rest.Nil? then Nil else Bit(x.low, Init(x.rest))
  }

  lemma InitLen(x: Bits)
    requires Len(x) > 0
    ensures Len(Init(x)) == Len(x) - 1
  {}

  /** One step to the left, the top bit falling off. */
  function ShiftLeft(x: Byte): (r: Byte) {
    InitLen(x);
    Bit(false, Init(x))
  }

  /** Multiplication by alpha: shift left, then reduce. */
  function Xtime(x: Byte): (r: Byte) {
    if Top(x) then Add(REDUCTION, ShiftLeft(x)) else ShiftLeft(x)
  }

  lemma XorTop(x: Bits, y: Bits)
    requires Len(x) == Len(y) > 0
    ensures Top(Xor(x, y)) == (Top(x) != Top(y))
    ensures Init(Xor(x, y)) == Xor(Init(x), Init(y))
  {}

  lemma XtimeAdd(x: Byte, y: Byte)
    ensures Xtime(Add(x, y)) == Add(Xtime(x), Xtime(y))
  {
    XorTop(x, y);
    var sx, sy := ShiftLeft(x), ShiftLeft(y);
    assert ShiftLeft(Add(x, y)) == Add(sx, sy);
    if Top(x) && Top(y) {
      AddSwap(REDUCTION, sx, REDUCTION, sy);
      AddZero(REDUCTION); AddZero(Add(sx, sy));
    } else if Top(x) {
      AddAssoc(REDUCTION, sx, sy);
    } else if Top(y) {
      AddAssoc(sx, REDUCTION, sy); AddComm(sx, REDUCTION); AddAssoc(REDUCTION, sx, sy);
    }
  }

  lemma InitTopUnique(x: Bits, y: Bits)
    requires Len(x) == Len(y) > 0 && Init(x) == Init(y) && Top(x) == Top(y)
    ensures x == y
  {}

  lemma XtimeInjective(x: Byte, y: Byte)
    requires Xtime(x) == Xtime(y)
    ensures x == y
  {
    if Top(x) {
      AddComm(REDUCTION, ShiftLeft(x)); AddComm(REDUCTION, ShiftLeft(y));
      AddCancel(ShiftLeft(x), REDUCTION); AddCancel(ShiftLeft(y), REDUCTION);
    }
    InitTopUnique(x, y);
  }

  // ---- the product

  /** Shift-and-add product of `a` with the polynomial `b`. */
  function MulBits(a: Byte, b: Bits): (r: Byte)
    decreases b
  {
    match b
    case Nil => ZERO
    case Bit(h, t) => Add(if h then a else ZERO, MulBits(Xtime(a), t))
  }

  function Mul(a: Byte, b: Byte): (r: Byte) { MulBits(a, b) }

  lemma {:induction false} MulBitsAddLeft(a: Byte, a': Byte, b: Bits)
    ensures MulBits(Add(a, a'), b) == Add(MulBits(a, b), MulBits(a', b))
    decreases b
  {
    AddZero(ZERO);
    if b.Bit? {
      XtimeAdd(a, a');
      MulBitsAddLeft(Xtime(a), Xtime(a'), b.rest);
      AddSwap(if b.low then a else ZERO, if b.low then a' else ZERO,
              MulBits(Xtime(a), b.rest), MulBits(Xtime(a'), b.rest));
    }
  }

  lemma {:induction false} MulBitsAddRight(a: Byte, b: Bits, b': Bits)
    requires Len(b) == Len(b')
    ensures MulBits(a, Xor(b, b')) == Add(MulBits(a, b), MulBits(a, b'))
    decreases b
  {
    AddZero(ZERO); AddZero(a);
    if b.Bit? {
      MulBitsAddRight(Xtime(a), b.rest, b'.rest);
      AddSwap(if b.low then a else ZERO, if b'.low then a else ZERO,
              MulBits(Xtime(a), b.rest), MulBits(Xtime(a), b'.rest));
    }
  }

  lemma {:induction false} MulBitsXtime(a: Byte, b: Bits)
    ensures MulBits(Xtime(a), b) == Xtime(MulBits(a, b))
    decreases b
  {
    XtimeZero();
    if b.Bit? {
      MulBitsXtime(Xtime(a), b.rest);
      XtimeAdd(if b.low then a else ZERO, MulBits(Xtime(a), b.rest));
    }
  }

  lemma XtimeZero()
    ensures Xtime(ZERO) == ZERO
  {
    XtimeAdd(ZERO, ZERO);
    AddZero(ZERO); AddZero(Xtime(ZERO));
  }

  lemma {:induction false} MulBitsZero(a: Byte, b: Bits)
    ensures MulBits(ZERO, b) == ZERO && MulBits(a, Zeros(Len(b))) == ZERO
    decreases b
  {
    AddZero(ZERO); XtimeZero();
    if b.Bit? { MulBitsZero(Xtime(a), b.rest); }
  }

  /** x^k as n bits, and x^k * b. */
  function Monomial(k: nat, n: nat): (r: Bits)
    requires k < n
    ensures Len(r) == n
  {
    if k == 0 then Bit(true, Zeros(n - 1)) else Bit(false, Monomial(k - 1, n - 1))
  }

  function Raise(k: nat, b: Bits): (r: Bits)
    ensures Len(r) == k + Len(b)
  {
    if k == 0 then b else Bit(false, Raise(k - 1, b))
  }

  lemma {:induction false} RaiseBit(k: nat, h: bool, t: Bits, n: nat)
    requires n == k + 1 + Len(t)
    ensures Xor(if h then Monomial(k, n) else Zeros(n), Raise(k + 1, t)) == Raise(k, Bit(h, t))
  {
    if k == 0 {
      XorSelf(t);
      assert Raise(1, t) == Bit(false, t);
    } else {
      RaiseBit(k - 1, h, t, n - 1);
    }
  }

  lemma {:induction false} ZerosTop(n: nat)
    requires n > 0
    ensures !Top(Zeros(n)) && Init(Zeros(n)) == Zeros(n - 1)
  {
    if n > 1 { ZerosTop(n - 1); }
  }

  lemma {:induction false} MonomialTop(k: nat, n: nat)
    requires k + 1 < n
    ensures !Top(Monomial(k, n)) && Init(Monomial(k, n)) == Monomial(k, n - 1)
  {
    if k == 0 { ZerosTop(n - 1); } else { MonomialTop(k - 1, n - 1); }
  }

  lemma {:induction false} MulMonomial(k: nat, b: Bits, n: nat)
    requires n == 8 && k < 8 && k + Len(b) == 8
    ensures MulBits(Monomial(k, n), b) == Raise(k, b)
    decreases b
  {
    ZeroByte();
    RaiseBit(k, b.low, b.rest, n);
    if k == 7 {
      RaiseNil(k + 1);
      assert b.rest == Nil;
    } else {
      MonomialTop(k, n);
      MulMonomial(k + 1, b.rest, n);
    }
  }

  lemma RaiseNil(k: nat)
    ensures Raise(k, Nil) == Zeros(k)
  {}

  lemma MulOne(b: Byte)
    ensures Mul(ONE, b) == b
  {
    ZeroByte();
    MulMonomial(0, b, 8);
  }

  // ---- alpha is primitive

  /** Powers of alpha: what gf_exp[] holds. */
  function Alpha(n: nat): (r: Byte) { if n == 0 then ONE else Xtime(Alpha(n - 1)) }

  lemma {:induction false} MulAlpha(i: nat, j: nat)
    ensures Mul(Alpha(i), Alpha(j)) == Alpha(i + j)
  {
    if i == 0 {
      MulOne(Alpha(j));
    } else {
      MulAlpha(i - 1, j);
      MulBitsXtime(Alpha(i - 1), Alpha(j));
    }
  }

  /** The same byte with its bits side by side, for evaluating particular powers. */
  datatype Octet = Octet(b0: bool, b1: bool, b2: bool, b3: bool, b4: bool, b5: bool, b6: bool, b7: bool)

  function Four(a: bool, b: bool, c: bool, d: bool, t: Bits): (r: Bits)
    ensures Len(r) == 4 + Len(t)
  {
    assert Len(Bit(c, Bit(d, t))) == 2 + Len(t);
    Bit(a, Bit(b, Bit(c, Bit(d, t))))
  }

  function ToByte(o: Octet): (r: Byte) { Four(o.b0, o.b1, o.b2, o.b3, Four(o.b4, o.b5, o.b6, o.b7, Nil)) }

  lemma FourInit(a: bool, b: bool, c: bool, d: bool, t: Bits)
    requires Len(t) > 0
    ensures Init(Four(a, b, c, d, t)) == Four(a, b, c, d, Init(t)) && Top(Four(a, b, c, d, t)) == Top(t)
  {
    assert Init(Bit(c, Bit(d, t))) == Bit(c, Bit(d, Init(t))) && Top(Bit(c, Bit(d, t))) == Top(t);
  }

  lemma FourXor(a: bool, b: bool, c: bool, d: bool, t: Bits, a': bool, b': bool, c': bool, d': bool, t': Bits)
    ensures Xor(Four(a, b, c, d, t), Four(a', b', c', d', t')) == Four(a != a', b != b', c != c', d != d', Xor(t, t'))
  {
    assert Xor(Bit(c, Bit(d, t)), Bit(c', Bit(d', t'))) == Bit(c != c', Bit(d != d', Xor(t, t')));
  }

  function XtimeOctet(o: Octet): (r: Octet) {
    Octet(o.b7, o.b0, o.b1 != o.b7, o.b2 != o.b7, o.b3 != o.b7, o.b4, o.b5, o.b6)
  }

  /** Squaring is linear: the sum of x^(2i) over the set bits i. */
  function SquareOctet(o: Octet): (r: Octet) {
    Octet((o.b0 != o.b4) != (o.b6 != o.b7), o.b7, ((o.b1 != o.b4) != o.b5) != o.b6, o.b4 != o.b6,
          ((o.b2 != o.b4) != o.b5) != o.b7, o.b5, (o.b3 != o.b5) != o.b6, o.b6)
  }

  lemma ShiftOctet(o: Octet)
    ensures Top(ToByte(o)) == o.b7
    ensures ShiftLeft(ToByte(o)) == ToByte(Octet(false, o.b0, o.b1, o.b2, o.b3, o.b4, o.b5, o.b6))
  {
    var high := Four(o.b4, o.b5, o.b6, o.b7, Nil);
    assert Init(Bit(o.b6, Bit(o.b7, Nil))) == Bit(o.b6, Nil) && Top(Bit(o.b6, Bit(o.b7, Nil))) == o.b7;
    assert Init(high) == Bit(o.b4, Bit(o.b5, Bit(o.b6, Nil))) && Top(high) == o.b7;
    FourInit(o.b0, o.b1, o.b2, o.b3, high);
  }

  lemma XtimeOfOctet(o: Octet)
    ensures Xtime(ToByte(o)) == ToByte(XtimeOctet(o))
  {
    ShiftOctet(o);
    if o.b7 {
      var high := Four(o.b3, o.b4, o.b5, o.b6, Nil);
      FourXor(true, false, false, false, Nil, o.b3, o.b4, o.b5, o.b6, Nil);
      FourXor(true, false, true, true, Four(true, false, false, false, Nil), false, o.b0, o.b1, o.b2, high);
    }
  }

  function AlphaOctet(n: nat): (r: Octet) {
    if n == 0 then Octet(true, false, false, false, false, false, false, false) else XtimeOctet(AlphaOctet(n - 1))
  }

  lemma OneOctet()
    ensures ONE == ToByte(Octet(true, false, false, false, false, false, false, false))
  {
    ZeroByte();
    assert Zeros(3) == Bit(false, Bit(false, Bit(false, Nil)));
  }

  lemma ToByteInjective(o: Octet, p: Octet)
    ensures ToByte(o) == ToByte(p) ==> o == p
  {}

  lemma {:induction false} AlphaOfOctet(n: nat)
    ensures Alpha(n) == ToByte(AlphaOctet(n))
  {
    if n == 0 {
      OneOctet();
    } else {
      AlphaOfOctet(n - 1);
      XtimeOfOctet(AlphaOctet(n - 1));
    }
  }

  lemma SquareXtime(o: Octet)
    ensures SquareOctet(XtimeOctet(o)) == XtimeOctet(XtimeOctet(SquareOctet(o)))
  {}

  lemma {:induction false} AlphaSquare(n: nat)
    ensures AlphaOctet(2 * n) == SquareOctet(AlphaOctet(n))
  {
    if n > 0 {
      AlphaSquare(n - 1);
      SquareXtime(AlphaOctet(n - 1));
      assert AlphaOctet(2 * n) == XtimeOctet(AlphaOctet(2 * n - 1));
    }
  }

  /** From the power n to the power 2n, or 2n + 1. */
  lemma NextPower(n: nat, o: Octet, odd: bool) returns (m: nat, p: Octet)
    requires AlphaOctet(n) == o
    ensures m == 2 * n + (if odd then 1 else 0) && AlphaOctet(m) == p
    ensures p == if odd then XtimeOctet(SquareOctet(o)) else SquareOctet(o)
  {
    AlphaSquare(n);
    m, p := 2 * n + (if odd then 1 else 0), if odd then XtimeOctet(SquareOctet(o)) else SquareOctet(o);
  }

  const UNIT := Octet(true, false, false, false, false, false, false, false)

  lemma PowerIsOne(n: nat)
    ensures Alpha(n) == ONE <==> AlphaOctet(n) == UNIT
  {
    AlphaOfOctet(n);
    OneOctet();
    ToByteInjective(AlphaOctet(n), UNIT);
  }

  lemma Power255() returns (n: nat)
    ensures n == 255 && AlphaOctet(n) == UNIT
  {
    var o := Octet(false, false, false, false, false, false, false, true);
    assert AlphaOctet(7) == o;
    n, o := NextPower(7, o, true);
    n, o := NextPower(n, o, true);
    n, o := NextPower(n, o, true);
    n, o := NextPower(n, o, true);
    n, o := NextPower(n, o, true);
  }

  lemma Power15() returns (n: nat)
    ensures n == 15 && AlphaOctet(n) != UNIT
  {
    var o := Octet(false, false, false, false, false, false, false, true);
    assert AlphaOctet(7) == o;
    n, o := NextPower(7, o, true);
  }

  lemma Power51() returns (n: nat)
    ensures n == 51 && AlphaOctet(n) != UNIT
  {
    var o := Octet(false, false, false, false, false, false, true, false);
    assert AlphaOctet(6) == o;
    n, o := NextPower(6, o, false);
    n, o := NextPower(n, o, true);
    n, o := NextPower(n, o, true);
  }

  lemma Power85() returns (n: nat)
    ensures n == 85 && AlphaOctet(n) != UNIT
  {
    var o := Octet(false, false, false, false, false, true, false, false);
    assert AlphaOctet(5) == o;
    n, o := NextPower(5, o, false);
    n, o := NextPower(n, o, true);
    n, o := NextPower(n, o, false);
    n, o := NextPower(n, o, true);
  }

  lemma {:induction false} AlphaShift(m: nat, n: nat)
    requires Alpha(m) == ONE
    ensures Alpha(m + n) == Alpha(n)
  {
    if n > 0 { AlphaShift(m, n - 1); }
  }

  lemma {:induction false} AlphaPeriod(m: nat, q: nat, n: nat, k: nat)
    requires Alpha(m) == ONE && k == m * q + n
    ensures Alpha(k) == Alpha(n)
    decreases q
  {
    if q > 0 {
      assert k - m == m * (q - 1) + n;
      AlphaShift(m, k - m);
      AlphaPeriod(m, q - 1, n, k - m);
    }
  }

  lemma AlphaRemainder(m: nat, k: nat)
    requires m > 0
    ensures Alpha(m) == ONE ==> Alpha(k % m) == Alpha(k)
  {
    if Alpha(m) == ONE {
      AlphaPeriod(m, k / m, k % m, k);
    }
  }

  /** The divisors of 255 below it. */
  lemma DivisorsOf255(m: nat, q: nat)
    requires m * q == 255 && m < 255
    ensures m == 1 || m == 3 || m == 5 || m == 15 || m == 17 || m == 51 || m == 85
  {
    if m <= 15 {
      assert m == 0 || m == 1 || m == 2 || m == 3 || m == 4 || m == 5 || m == 6 || m == 7 || m == 8 ||
             m == 9 || m == 10 || m == 11 || m == 12 || m == 13 || m == 14 || m == 15;
    } else {
      assert q <= 15 by { MulMonotone(m, q); }
      assert q == 0 || q == 1 || q == 2 || q == 3 || q == 4 || q == 5 || q == 6 || q == 7 || q == 8 ||
             q == 9 || q == 10 || q == 11 || q == 12 || q == 13 || q == 14 || q == 15;
    }
  }

  lemma MulMonotone(m: nat, q: nat)
    ensures m >= 16 && q >= 16 ==> m * q >= 256
  {}

  lemma AlphaNotDivisor(m: nat)
    requires m == 1 || m == 3 || m == 5 || m == 15 || m == 17 || m == 51 || m == 85
    ensures Alpha(m) != ONE
  {
    if m <= 15 {
      var k := Power15();
      PowerIsOne(k);
      AlphaRemainder(m, k);
    } else if m <= 51 {
      var k := Power51();
      PowerIsOne(k);
      AlphaRemainder(m, k);
    } else {
      var k := Power85();
      PowerIsOne(k);
    }
  }

  lemma Quotient255(m: nat, n: nat)
    requires n == 255 && 0 < m < 255 && n % m == 0
    ensures m == 1 || m == 3 || m == 5 || m == 15 || m == 17 || m == 51 || m == 85
  {
    assert m * (n / m) == 255;
    DivisorsOf255(m, n / m);
  }

  /** Alpha has order exactly 255: no smaller positive power is 1. */
  lemma {:induction false} AlphaOrder(m: nat)
    requires 0 < m < 255
    ensures Alpha(m) != ONE
  {
    if Alpha(m) == ONE {
      var n := Power255();
      PowerIsOne(n);
      AlphaRemainder(m, n);
      if n % m > 0 {
        AlphaOrder(n % m);
      } else {
        Quotient255(m, n);
        AlphaNotDivisor(m);
      }
    }
  }

  lemma {:induction false} AlphaInjective(i: nat, j: nat)
    requires i <= j < 255 && Alpha(i) == Alpha(j)
    ensures i == j
  {
    if i == 0 {
      if j > 0 { AlphaOrder(j); }
    } else {
      XtimeInjective(Alpha(i - 1), Alpha(j - 1));
      AlphaInjective(i - 1, j - 1);
    }
  }

  lemma {:induction false} AlphaNonZero(n: nat)
    ensures Alpha(n) != ZERO
  {
    if n > 0 {
      AlphaNonZero(n - 1);
      XtimeZero();
      if Alpha(n) == ZERO { XtimeInjective(Alpha(n - 1), ZERO); }
    }
  }

  // ---- bytes as numbers, for table indices

  function Pow2(n: nat): (r: nat)
    ensures r > 0
  {
    if n == 0 then 1 else 2 * Pow2(n - 1)
  }

  /** The number a bit list stands for. */
  function Code(x: Bits): (r: nat)
    ensures r < Pow2(Len(x))
  {
    match x case Nil => 0 case Bit(b, s) => (if b then 1 else 0) + 2 * Code(s)
  }

  function Decode(v: nat, n: nat): (r: Bits)
    ensures Len(r) == n
  {
    if n == 0 then Nil else Bit(v % 2 == 1, Decode(v / 2, n - 1))
  }

  lemma {:induction false} DecodeCode(x: Bits)
    ensures Decode(Code(x), Len(x)) == x
  {
    if x.Bit? {
      DecodeCode(x.rest);
      assert Code(x) / 2 == Code(x.rest) && (Code(x) % 2 == 1) == x.low;
    }
  }

  lemma {:induction false} CodeDecode(v: nat, n: nat)
    requires v < Pow2(n)
    ensures Code(Decode(v, n)) == v
  {
    if n > 0 { CodeDecode(v / 2, n - 1); }
  }

  /** The index of a byte in a 256-entry table. */
  function Index(x: Byte): (r: nat)
    ensures r < 256
  {
    assert Pow2(4) == 16 && Pow2(8) == 256;
    Code(x)
  }

  lemma IndexInjective(x: Byte, y: Byte)
    requires Index(x) == Index(y)
    ensures x == y
  {
    DecodeCode(x); DecodeCode(y);
  }

  // ---- every non-zero byte is a power of alpha

  ghost function Powers(n: nat): (r: set<nat>) { set i | 0 <= i < n :: Index(Alpha(i)) }

  lemma {:induction false} PowersSize(n: nat)
    requires n <= 255
    ensures |Powers(n)| == n
  {
    if n > 0 {
      PowersSize(n - 1);
      forall i | 0 <= i < n - 1 ensures Index(Alpha(i)) != Index(Alpha(n - 1)) {
        if Index(Alpha(i)) == Index(Alpha(n - 1)) {
          IndexInjective(Alpha(i), Alpha(n - 1));
          AlphaInjective(i, n - 1);
        }
      }
      assert Powers(n) == Powers(n - 1) + {Index(Alpha(n - 1))};
    }
  }

  ghost function Range(n: nat): (r: set<nat>)
    ensures forall i :: i in r <==> 1 <= i <= n
    ensures |r| == n
  {
    if n == 0 then {} else Range(n - 1) + {n}
  }

  lemma SubsetSameSize(a: set<nat>, b: set<nat>)
    requires a <= b && |a| == |b|
    ensures a == b
  {
    assert b == a + (b - a);
    assert |b| == |a| + |b - a|;
  }

  lemma AlphaOnto(x: Byte)
    requires x != ZERO
    ensures exists i :: 0 <= i < 255 && Alpha(i) == x
  {
    var nonzero := Range(255);
    forall i | 0 <= i < 255 ensures Index(Alpha(i)) in nonzero {
      AlphaNonZero(i);
      if Index(Alpha(i)) == 0 { ZeroIndex(); IndexInjective(Alpha(i), ZERO); }
    }
    PowersSize(255);
    SubsetSameSize(Powers(255), nonzero);
    ZeroIndex();
    if Index(x) == 0 { IndexInjective(x, ZERO); }
    assert Index(x) in Powers(255);
    var i :| 0 <= i < 255 && Index(Alpha(i)) == Index(x);
    IndexInjective(x, Alpha(i));
  }

  lemma ZeroIndex()
    ensures Index(ZERO) == 0 && Index(ONE) == 1
  {
    assert Code(Zeros(4)) == 0 && Zeros(4) == Bit(false, Bit(false, Bit(false, Bit(false, Nil))));
    assert Code(ZERO.rest.rest.rest) == 0;
  }

  lemma AlphaUnique(i: nat, j: nat)
    requires i < 255 && j < 255 && Alpha(i) == Alpha(j)
    ensures i == j
  {
    if i <= j { AlphaInjective(i, j); } else { AlphaInjective(j, i); }
  }

  /** The logarithm to base alpha. */
  function Log(x: Byte): (i: nat)
    requires x != ZERO
    ensures i < 255 && Alpha(i) == x
  {
    AlphaOnto(x);
    assert forall i, j :: 0 <= i < 255 && 0 <= j < 255 && Alpha(i) == x && Alpha(j) == x ==> i == j by {
      forall i, j | 0 <= i < 255 && 0 <= j < 255 && Alpha(i) == x && Alpha(j) == x ensures i == j { AlphaUnique(i, j); }
    }
    var i :| 0 <= i < 255 && Alpha(i) == x;
    i
  }

  lemma LogUnique(x: Byte, i: nat)
    requires i < 255 && Alpha(i) == x
    ensures x != ZERO && Log(x) == i
  {
    AlphaNonZero(i);
    AlphaUnique(Log(x), i);
  }

  lemma AlphaMod(n: nat)
    ensures Alpha(n % 255) == Alpha(n)
  {
    var m := Power255();
    PowerIsOne(m);
    AlphaRemainder(m, n);
  }

  // ---- the field laws

  lemma MulZero(a: Byte)
    ensures Mul(a, ZERO) == ZERO && Mul(ZERO, a) == ZERO
  {
    ZeroByte();
    MulBitsZero(a, ZERO); MulBitsZero(ZERO, a);
  }

  /** The product in terms of logarithms, as gf_mul_table[] is filled. */
  lemma {:induction false} MulLog(a: Byte, b: Byte)
    requires a != ZERO && b != ZERO
    ensures Mul(a, b) == Alpha(Log(a) + Log(b)) && Mul(a, b) != ZERO
  {
    MulAlpha(Log(a), Log(b));
    AlphaNonZero(Log(a) + Log(b));
  }

  lemma MulComm(a: Byte, b: Byte)
    ensures Mul(a, b) == Mul(b, a)
  {
    MulZero(a); MulZero(b);
    if a != ZERO && b != ZERO { MulLog(a, b); MulLog(b, a); }
  }

  lemma {:induction false} AlphaAssoc(i: nat, j: nat, k: nat)
    ensures Mul(Mul(Alpha(i), Alpha(j)), Alpha(k)) == Mul(Alpha(i), Mul(Alpha(j), Alpha(k)))
  {
    MulAlpha(i, j); MulAlpha(i + j, k);
    MulAlpha(j, k); MulAlpha(i, j + k);
    assert i + j + k == i + (j + k);
  }

  lemma MulAssoc(a: Byte, b: Byte, c: Byte)
    ensures Mul(Mul(a, b), c) == Mul(a, Mul(b, c))
  {
    if a == ZERO || b == ZERO || c == ZERO {
      MulZero(a); MulZero(b); MulZero(c); MulZero(Mul(a, b)); MulZero(Mul(b, c));
    } else {
      AlphaAssoc(Log(a), Log(b), Log(c));
    }
  }

  lemma MulUnit(a: Byte)
    ensures Mul(ONE, a) == a && Mul(a, ONE) == a
  {
    MulOne(a);
    MulComm(a, ONE);
  }

  lemma MulAdd(a: Byte, b: Byte, c: Byte)
    ensures Mul(a, Add(b, c)) == Add(Mul(a, b), Mul(a, c))
    ensures Mul(Add(b, c), a) == Add(Mul(b, a), Mul(c, a))
  {
    MulBitsAddRight(a, b, c);
    MulBitsAddLeft(b, c, a);
  }

  lemma MulNonZero(a: Byte, b: Byte)
    ensures Mul(a, b) == ZERO <==> a == ZERO || b == ZERO
  {
    MulZero(a); MulZero(b);
    if a != ZERO && b != ZERO { MulLog(a, b); }
  }

  function Inv(a: Byte): (r: Byte) {
    if a == ZERO then ZERO else Alpha(255 - Log(a))
  }

  lemma MulInv(a: Byte)
    requires a != ZERO
    ensures Mul(a, Inv(a)) == ONE && Mul(Inv(a), a) == ONE && Inv(a) != ZERO
  {
    var n := Power255();
    PowerIsOne(n);
    MulAlpha(Log(a), n - Log(a));
    MulComm(a, Inv(a));
    AlphaNonZero(n - Log(a));
  }
}
