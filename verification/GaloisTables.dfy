/** The lookup tables of lib/fec.c, filled by the loops of the source and proved to hold
    the powers, logarithms, inverses and products of the field. */
module GaloisTables {
  import opened GaloisField

  const INT_MAX: nat := 0x7fff_ffff

  /** x % 255 without a division. */
  method Modnn(start: nat) returns (r: nat)
    requires start <= INT_MAX
    ensures r == start % 255
  {
    var x := start;
    while x >= 255
      invariant x % 255 == start % 255
    {
      x := x - 255;
      x := x / 256 + x % 256;
    }
    r := x;
  }

  /** Coefficients of the primitive polynomial, lowest first. */
  const POLYNOMIAL: string := "101110001"

  const HIGH_BIT: Byte :=
    Bit(false, Bit(false, Bit(false, Bit(false, Bit(false, Bit(false, Bit(false, Bit(true, Nil))))))))

  /** The sum of alpha^k over the set coefficients below `n`. */
  function PolynomialSum(p: string, n: nat): (r: Byte)
    requires n <= |p|
  {
    if n == 0 then ZERO
    else if p[n - 1] == '1' then Add(PolynomialSum(p, n - 1), Alpha(n - 1)) else PolynomialSum(p, n - 1)
  }

  const ALPHA2: Byte :=
    Bit(false, Bit(false, Bit(true, Bit(false, Bit(false, Bit(false, Bit(false, Bit(false, Nil))))))))

  const ALPHA3: Byte :=
    Bit(false, Bit(false, Bit(false, Bit(true, Bit(false, Bit(false, Bit(false, Bit(false, Nil))))))))

  const ALPHA4: Byte :=
    Bit(false, Bit(false, Bit(false, Bit(false, Bit(true, Bit(false, Bit(false, Bit(false, Nil))))))))

  lemma EarlyPowers(n: nat)
    requires n == 8
    ensures Alpha(n - 8) == ONE
    ensures Alpha(n - 6) == ALPHA2
    ensures Alpha(n - 5) == ALPHA3
    ensures Alpha(n - 4) == ALPHA4
    ensures Alpha(n - 1) == HIGH_BIT
    ensures Alpha(n) == REDUCTION
  {
    AlphaOfOctet(n - 6); AlphaOfOctet(n - 5); AlphaOfOctet(n - 4); AlphaOfOctet(n - 1); AlphaOfOctet(n);
  }

  lemma ReductionSum()
    ensures Xor(Xor(Xor(ONE, ALPHA2), ALPHA3), ALPHA4) == REDUCTION
  {
    var two := Bit(true, Bit(false, Bit(true, Bit(false, Bit(false, Bit(false, Bit(false, Bit(false, Nil))))))));
    var three := Bit(true, Bit(false, Bit(true, Bit(true, Bit(false, Bit(false, Bit(false, Bit(false, Nil))))))));
    assert Xor(ONE, ALPHA2) == two;
    assert Xor(two, ALPHA3) == three;
    assert Xor(three, ALPHA4) == REDUCTION;
  }

  lemma {:induction false} PolynomialSumIsAlpha8(p: string, n: nat)
    requires p == POLYNOMIAL && n == 8
    ensures PolynomialSum(p, n) == Alpha(n)
  {
    hide Alpha, Xor;
    EarlyPowers(n);
    AddZero(ONE); AddComm(ZERO, ONE);
    assert PolynomialSum(p, n - 7) == ONE;
    assert PolynomialSum(p, n - 6) == ONE;
    assert PolynomialSum(p, n - 5) == Add(ONE, Alpha(n - 6));
    assert PolynomialSum(p, n - 4) == Add(Add(ONE, Alpha(n - 6)), Alpha(n - 5));
    assert PolynomialSum(p, n - 3) == Add(Add(Add(ONE, Alpha(n - 6)), Alpha(n - 5)), Alpha(n - 4));
    assert PolynomialSum(p, n - 1) == PolynomialSum(p, n - 3);
    ReductionSum();
  }

  lemma {:induction false} LowPower(i: nat, n: nat)
    requires n == 8 && i < n
    ensures Alpha(i) == Monomial(i, n)
    ensures i + 1 < n ==> ShiftLeft(Alpha(i)) == Alpha(i + 1)
  {
    if i == 0 { ZeroByte(); } else { LowPower(i - 1, n); MonomialTop(i - 1, n); }
    if i + 1 < n { MonomialTop(i, n); }
  }

  lemma ShiftPower(i: nat)
    requires i < 7
    ensures ShiftLeft(Alpha(i)) == Alpha(i + 1)
  {
    LowPower(i, 8);
  }

  lemma DistinctSlots(n: nat)
    requires n < 255
    ensures forall k :: 0 <= k < n ==> Index(Alpha(k)) != Index(Alpha(n))
  {
    forall k | 0 <= k < n ensures Index(Alpha(k)) != Index(Alpha(n)) {
      if Index(Alpha(k)) == Index(Alpha(n)) {
        IndexInjective(Alpha(k), Alpha(n));
        AlphaInjective(k, n);
      }
    }
  }

  lemma {:induction false} TopIsHighHalf(x: Bits)
    requires Len(x) > 0
    ensures Top(x) <==> Code(x) >= Pow2(Len(x) - 1)
  {
    if x.rest.Bit? { TopIsHighHalf(x.rest); }
  }

  /** The two branches that make the next power in the second loop of generate_gf(). */
  lemma NextPowerByShift(x: Byte)
    ensures Index(HIGH_BIT) == 128
    ensures Index(x) >= 128 ==> Xtime(x) == Add(REDUCTION, ShiftLeft(Add(x, HIGH_BIT)))
    ensures Index(x) < 128 ==> Xtime(x) == ShiftLeft(x)
  {
    assert Pow2(7) == 128;
    TopIsHighHalf(x);
    TopIsHighHalf(HIGH_BIT);
    XorTop(x, HIGH_BIT);
    HighBitParts();
    XorSelf(Init(x));
    XorComm(Init(x), Zeros(7));
  }

  lemma HighBitParts()
    ensures Init(HIGH_BIT) == Zeros(7) && Top(HIGH_BIT) && Index(HIGH_BIT) == 128
  {
    assert Zeros(3) == Bit(false, Bit(false, Bit(false, Nil)));
  }

  class Tables {
    const exp: array<Byte>
    const log: array<nat>
    const inverse: array<Byte>
    const mul: array2<Byte>

    ghost predicate Allocated() {
      exp.Length == 510 && log.Length == 256 && inverse.Length == 256 && exp != inverse &&
      mul.Length0 == 256 && mul.Length1 == 256
    }

    ghost predicate PowersTo(n: nat)
      reads exp, log
      requires Allocated() && n <= 255
    {
      (forall k {:trigger exp[k]} :: 0 <= k < n ==> exp[k] == Alpha(k)) &&
      (forall k {:trigger Alpha(k)} :: 0 <= k < n ==> log[Index(Alpha(k))] == k)
    }

    /** What generate_gf() leaves behind. */
    ghost predicate Generated()
      reads exp, log, inverse
    {
      Allocated() && (forall k {:trigger exp[k]} :: 0 <= k < 510 ==> exp[k] == Alpha(k)) &&
      (forall x: Byte :: log[Index(x)] == if x == ZERO then 255 else Log(x)) &&
      (forall x: Byte :: inverse[Index(x)] == Inv(x))
    }

    /** What init_fec() leaves behind. */
    ghost predicate Ready()
      reads exp, log, inverse, mul
    {
      Generated() && forall x: Byte, y: Byte :: mul[Index(x), Index(y)] == Mul(x, y)
    }

    constructor ()
      ensures Allocated() && fresh(exp) && fresh(log) && fresh(inverse) && fresh(mul)
    {
      exp := new Byte[510](_ => ZERO);
      log := new nat[256](_ => 0);
      inverse := new Byte[256](_ => ZERO);
      mul := new Byte[256, 256]((_, _) => ZERO);
    }

    /** exp[i] = alpha^i and log[alpha^i] = i. */
    method Record(i: nat, power: Byte)
      requires Allocated() && i < 255 && PowersTo(i) && power == Alpha(i)
      modifies exp, log
      ensures PowersTo(i + 1)
      ensures forall k :: 0 <= k < 510 && k != i ==> exp[k] == old(exp[k])
    {
      DistinctSlots(i);
      exp[i] := power;
      log[Index(exp[i])] := i;
    }

    /** exp[8] ^= mask, while only lower powers are in place. */
    method Accumulate(mask: Byte, n: nat)
      requires Allocated() && n <= 8 && PowersTo(n)
      modifies exp
      ensures PowersTo(n) && exp[8] == Add(old(exp[8]), mask)
    {
      exp[8] := Add(exp[8], mask);
      assert forall k :: 0 <= k < n ==> exp[k] == old(exp[k]);
    }

    /** The first eight powers are shifts of 1; exp[8] is summed from the polynomial. */
    method FirstPowers(p: string)
      requires Allocated() && |p| == 9
      modifies exp, log
      ensures PowersTo(8) && exp[8] == PolynomialSum(p, 8)
    {
      var mask: Byte := ONE;
      exp[8] := ZERO;
      var i := 0;
      while i < 8
        invariant 0 <= i <= 8 && (i < 8 ==> mask == Alpha(i))
        invariant PowersTo(i)
        invariant exp[8] == PolynomialSum(p, i)
      {
        Record(i, mask);
        if p[i] == '1' { Accumulate(mask, i + 1); }
        if i < 7 { ShiftPower(i); }
        mask := ShiftLeft(mask);
        i := i + 1;
      }
    }

    /** The remaining powers, each the previous one times alpha. */
    method LaterPowers()
      requires Allocated() && PowersTo(9)
      modifies exp, log
      ensures PowersTo(255)
    {
      var mask := HIGH_BIT;
      var i := 9;
      while i < 255
        invariant 9 <= i <= 255 && PowersTo(i)
      {
        EarlyPowers(8);
        NextPowerByShift(exp[i - 1]);
        if Index(exp[i - 1]) >= Index(mask) {
          Record(i, Add(exp[8], ShiftLeft(Add(exp[i - 1], mask))));
        } else {
          Record(i, ShiftLeft(exp[i - 1]));
        }
        i := i + 1;
      }
    }
  
    ghost predicate LogsDone()
      reads log
      requires Allocated()
    {
      forall x: Byte :: log[Index(x)] == if x == ZERO then 255 else Log(x)
    }

    lemma LogsFromPowers()
      requires Allocated() && PowersTo(255) && log[0] == 255
      ensures LogsDone()
    {
      ZeroIndex();
      forall x: Byte ensures log[Index(x)] == if x == ZERO then 255 else Log(x) {
        if x != ZERO { assert Alpha(Log(x)) == x; }
      }
    }

    /** The second half of exp[] repeats the first. */
    method ExtendPowers()
      requires Allocated() && PowersTo(255)
      modifies exp
      ensures forall k {:trigger exp[k]} :: 0 <= k < 510 ==> exp[k] == Alpha(k)
    {
      var i := 0;
      while i < 255
        invariant 0 <= i <= 255
        invariant forall k {:trigger exp[k]} :: 0 <= k < 255 + i ==> exp[k] == Alpha(k)
      {
        AlphaWraps(i);
        exp[i + 255] := exp[i];
        i := i + 1;
      }
    }

    method InverseEntry(i: nat) returns (v: Byte)
      requires Allocated() && LogsDone() && forall k {:trigger exp[k]} :: 0 <= k < 510 ==> exp[k] == Alpha(k)
      requires 0 < i < 256
      ensures v == Inv(ByteOf(i))
    {
      ghost var x := ByteOf(i);
      ZeroIndex();
      assert log[Index(x)] == Log(x);
      v := exp[255 - log[i]];
    }

    ghost predicate InversesTo(n: nat)
      reads inverse
      requires Allocated() && n <= 256
    {
      forall k {:trigger inverse[k]} :: 0 <= k < n ==> inverse[k] == Inv(ByteOf(k))
    }

    method FirstTwoInverses()
      requires Allocated()
      modifies inverse
      ensures InversesTo(2)
    {
      FirstInverses(0, 1);
      inverse[0] := ZERO;
      inverse[1] := ONE;
    }

    method FillInverses()
      requires Allocated() && LogsDone() && forall k {:trigger exp[k]} :: 0 <= k < 510 ==> exp[k] == Alpha(k)
      modifies inverse
      ensures forall x: Byte :: inverse[Index(x)] == Inv(x)
    {
      FirstTwoInverses();
      var i := 2;
      while i <= 255
        invariant 2 <= i <= 256 && InversesTo(i)
      {
        var v := InverseEntry(i);
        inverse[i] := v;
        i := i + 1;
      }
      InverseEntries();
    }

    lemma InverseEntries()
      requires Allocated() && InversesTo(256)
      ensures forall x: Byte :: inverse[Index(x)] == Inv(x)
    {
      forall x: Byte ensures inverse[Index(x)] == Inv(x) { ByteOfIndex(x); }
    }

    method FillPowers()
      requires Allocated()
      modifies exp, log
      ensures PowersTo(255)
    {
      FirstPowers(POLYNOMIAL);
      PolynomialSumIsAlpha8(POLYNOMIAL, 8);
      Record(8, exp[8]);
      LaterPowers();
    }

    method GenerateGf()
      requires Allocated()
      modifies exp, log, inverse
      ensures Generated()
    {
      FillPowers();
      SetLogOfZero();
      ExtendPowers();
      FillInverses();
    }

    method ProductEntry(i: nat, j: nat) returns (v: Byte)
      requires Generated() && i < 256 && j < 256
      ensures i != 0 && j != 0 ==> v == Mul(ByteOf(i), ByteOf(j))
    {
      LogEntry(i); LogEntry(j);
      var m := Modnn(log[i] + log[j]);
      v := exp[m];
      assert v == Alpha(m);
      ProductFromLogs(ByteOf(i), ByteOf(j), m);
    }

    lemma LogEntry(i: nat)
      requires Generated() && i < 256
      ensures log[i] <= 255 && (i != 0 ==> ByteOf(i) != ZERO && log[i] == Log(ByteOf(i)))
    {
      ZeroIndex();
      assert log[Index(ByteOf(i))] == log[i];
    }

    /** Row `i` of the table, from logarithms. */
    method FillRow(i: nat)
      requires Generated() && i < 256
      modifies mul
      ensures forall k, j :: 0 <= k < 256 && 0 <= j < 256 && k != i ==> mul[k, j] == old(mul[k, j])
      ensures i != 0 ==> forall j :: 0 < j < 256 ==> mul[i, j] == Mul(ByteOf(i), ByteOf(j))
    {
      var j := 0;
      while j < 256
        invariant 0 <= j <= 256
        invariant forall k, j :: 0 <= k < 256 && 0 <= j < 256 && k != i ==> mul[k, j] == old(mul[k, j])
        invariant i != 0 ==> forall k :: 0 < k < j ==> mul[i, k] == Mul(ByteOf(i), ByteOf(k))
      {
        var v := ProductEntry(i, j);
        mul[i, j] := v;
        j := j + 1;
      }
    }

    method InitMulTable()
      requires Generated()
      modifies mul
      ensures Ready()
    {
      hide Mul;
      var i := 0;
      while i < 256
        invariant 0 <= i <= 256 && Generated()
        invariant forall k, j :: 0 < k < i && 0 < j < 256 ==> mul[k, j] == Mul(ByteOf(k), ByteOf(j))
      {
        FillRow(i);
        i := i + 1;
      }
      var j := 0;
      while j < 256
        invariant 0 <= j <= 256 && Generated()
        invariant forall k, l :: 0 < k < 256 && 0 < l < 256 ==> mul[k, l] == Mul(ByteOf(k), ByteOf(l))
        invariant forall k :: 0 <= k < j ==> mul[0, k] == ZERO && mul[k, 0] == ZERO
      {
        mul[j, 0] := ZERO;
        mul[0, j] := mul[j, 0];
        j := j + 1;
      }
      forall x: Byte, y: Byte ensures mul[Index(x), Index(y)] == Mul(x, y) { Entry(x, y); }
    }

    lemma Entry(x: Byte, y: Byte)
      requires Allocated()
      requires forall k, l :: 0 < k < 256 && 0 < l < 256 ==> mul[k, l] == Mul(ByteOf(k), ByteOf(l))
      requires forall k :: 0 <= k < 256 ==> mul[0, k] == ZERO && mul[k, 0] == ZERO
      ensures mul[Index(x), Index(y)] == Mul(x, y)
    {
      hide Mul;
      ZeroIndex(); MulZero(x); MulZero(y);
      ByteOfIndex(x); ByteOfIndex(y);
      if Index(x) == 0 { IndexInjective(x, ZERO); }
      if Index(y) == 0 { IndexInjective(y, ZERO); }
    }

    function MulRow(i: nat): (row: seq<Byte>)
      requires Allocated() && i < 256
      reads mul
      ensures |row| == 256 && forall j :: 0 <= j < 256 ==> row[j] == mul[i, j]
    {
      seq(256, j requires 0 <= j < 256 && Allocated() reads mul => mul[i, j])
    }

    /** The tables as a value. */
    function Contents(): (l: Lookup)
      requires Allocated()
      reads exp, inverse, mul
    {
      Lookup(exp[..], inverse[..], seq(256, i requires 0 <= i < 256 && Allocated() reads mul => MulRow(i)))
    }

    lemma ReadyIsFilled()
      requires Ready()
      ensures Filled(Contents())
    {
      hide Mul, Inv, Alpha, Index;
      var l := Contents();
      forall x: Byte, y: Byte ensures l.mul[Index(x)][Index(y)] == Mul(x, y) {
        assert l.mul[Index(x)] == MulRow(Index(x));
      }
    }

    /** Fills all tables; from here on they are only read. */
    method InitFec() returns (gf: Gf)
      requires Allocated()
      modifies exp, log, inverse, mul
      ensures Ready() && gf == Contents()
    {
      GenerateGf();
      InitMulTable();
      ReadyIsFilled();
      gf := Contents();
    }

    method SetLogOfZero()
      requires Allocated() && PowersTo(255)
      modifies log
      ensures PowersTo(255) && LogsDone()
    {
      forall k | 0 <= k < 255 ensures Index(Alpha(k)) != 0 {
        AlphaNonZero(k);
        ZeroIndex();
        if Index(Alpha(k)) == 0 { IndexInjective(Alpha(k), ZERO); }
      }
      log[0] := 255;
      LogsFromPowers();
    }
  }

  lemma IndexOnto(k: nat)
    requires k < 256
    ensures exists x: Byte :: Index(x) == k
  {
    assert Pow2(8) == 256;
    CodeDecode(k, 8);
    assert Index(Decode(k, 8)) == k;
  }

  /** The entry computed from logarithms is the product, unless a factor is zero. */
  lemma ProductFromLogs(x: Byte, y: Byte, m: nat)
    ensures x != ZERO && y != ZERO && m == (Log(x) + Log(y)) % 255 ==> Alpha(m) == Mul(x, y)
  {
    if x != ZERO && y != ZERO {
      MulLog(x, y);
      AlphaMod(Log(x) + Log(y));
    }
  }

  /** The byte with a given table index. */
  ghost function ByteOf(k: nat): (r: Byte)
    requires k < 256
    ensures Index(r) == k
  {
    IndexOnto(k);
    var x: Byte :| Index(x) == k;
    x
  }

  lemma ByteOfIndex(x: Byte)
    ensures ByteOf(Index(x)) == x
  {
    IndexInjective(ByteOf(Index(x)), x);
  }

  lemma AlphaWraps(i: nat)
    ensures Alpha(i + 255) == Alpha(i)
  {
    var n := Power255();
    PowerIsOne(n);
    AlphaShift(n, i);
  }

  lemma FirstInverses(zero: nat, one: nat)
    requires zero == 0 && one == 1
    ensures Inv(ByteOf(zero)) == ZERO && Inv(ByteOf(one)) == ONE
  {
    ZeroIndex();
    ByteOfIndex(ZERO); ByteOfIndex(ONE);
    MulInv(ONE);
    MulUnit(Inv(ONE));
  }

  // ---- reading the tables

  /** The tables once filled: nothing writes to them any more. */
  datatype Lookup = Lookup(exp: seq<Byte>, inverse: seq<Byte>, mul: seq<seq<Byte>>)

  ghost predicate Filled(l: Lookup) {
    |l.exp| == 510 && |l.inverse| == 256 && |l.mul| == 256 && (forall k :: 0 <= k < 256 ==> |l.mul[k]| == 256) &&
    (forall k {:trigger l.exp[k]} :: 0 <= k < 510 ==> l.exp[k] == Alpha(k)) &&
    (forall x: Byte {:trigger l.inverse[Index(x)]} :: l.inverse[Index(x)] == Inv(x)) &&
    (forall x: Byte, y: Byte {:trigger l.mul[Index(x)][Index(y)]} :: l.mul[Index(x)][Index(y)] == Mul(x, y))
  }

  ghost function FilledTables(): (l: Lookup)
    ensures Filled(l)
  {
    assert forall x: Byte :: ByteOf(Index(x)) == x by {
      forall x: Byte ensures ByteOf(Index(x)) == x { ByteOfIndex(x); }
    }
    Lookup(seq(510, k requires 0 <= k => Alpha(k)), seq(256, k requires 0 <= k < 256 => Inv(ByteOf(k))),
           seq(256, k requires 0 <= k < 256 => seq(256, j requires 0 <= j < 256 => Mul(ByteOf(k), ByteOf(j)))))
  }

  type Gf = l: Lookup | Filled(l) ghost witness FilledTables()

  function GfMul(gf: Gf, x: Byte, y: Byte): (r: Byte)
    ensures r == Mul(x, y)
  {
    gf.mul[Index(x)][Index(y)]
  }

  function GfInverse(gf: Gf, x: Byte): (r: Byte)
    ensures r == Inv(x)
  {
    gf.inverse[Index(x)]
  }

  function GfExp(gf: Gf, k: nat): (r: Byte)
    requires k < 510
    ensures r == Alpha(k)
  {
    gf.exp[k]
  }
}
