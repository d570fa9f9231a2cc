/**
 * Fixnum arithmetic: checked folds, truncated division and comparison chains,
 * and the tagged 64-bit encoding of fixnums.
 */
module Arith {
  import opened Basics
  import opened Terms

  datatype PrimResult = Val(v: Value) | Err(st: Error)

  // ------------------------------------------------------------ + - *

  datatype FoldOp = Plus | Minus | Times

  function ApplyOp(op: FoldOp, a: int, b: int): int {
    match op
    case Plus => a + b
    case Minus => a - b
    case Times => a * b
  }

  // Left fold that stops at the first non-number or out-of-range result.
  function Fold(op: FoldOp, acc: Fixnum, argv: seq<Value>): PrimResult
    decreases |argv|
  {
    if argv == [] then Val(Fix(acc))
    else if !argv[0].Fix? then Err(TypeError)
    else
      var r := ApplyOp(op, acc, argv[0].n);
      if FitsFixnum(r) then Fold(op, r, argv[1..]) else Err(Overflow)
  }

  ghost predicate AllFix(argv: seq<Value>) {
    forall i | 0 <= i < |argv| :: argv[i].Fix?
  }

  // The mathematical result over unbounded integers, defined from the right end.
  ghost function Exact(op: FoldOp, acc: int, argv: seq<Value>): int
    requires AllFix(argv)
  {
    if argv == [] then acc
    else ApplyOp(op, Exact(op, acc, argv[..|argv| - 1]), argv[|argv| - 1].n)
  }

  ghost predicate PrefixFits(op: FoldOp, acc: int, argv: seq<Value>, k: nat)
    requires k <= |argv|
  {
    AllFix(argv[..k]) && FitsFixnum(Exact(op, acc, argv[..k]))
  }

  lemma {:induction false} ExactShift(op: FoldOp, acc: int, argv: seq<Value>)
    requires argv != [] && AllFix(argv)
    ensures Exact(op, acc, argv) == Exact(op, ApplyOp(op, acc, argv[0].n), argv[1..])
  {
    if |argv| > 1 {
      var init := argv[..|argv| - 1];
      ExactShift(op, acc, init);
      assert init[1..] == argv[1..][..|argv| - 2];
    } else {
      assert argv[..0] == [] && argv[1..] == [];
    }
  }

  lemma PrefixShift(op: FoldOp, acc: int, argv: seq<Value>, k: nat)
    requires 0 < k <= |argv| && argv[0].Fix?
    ensures PrefixFits(op, acc, argv, k) <==> PrefixFits(op, ApplyOp(op, acc, argv[0].n), argv[1..], k - 1)
  {
    assert argv[..k][1..] == argv[1..][..k - 1];
    assert AllFix(argv[..k]) <==> AllFix(argv[1..][..k - 1]) by {
      if AllFix(argv[1..][..k - 1]) {
        forall i | 0 <= i < k ensures argv[..k][i].Fix? {
          assert i > 0 ==> argv[..k][i] == argv[1..][..k - 1][i - 1];
        }
      }
      if AllFix(argv[..k]) {
        var tail := argv[1..][..k - 1];
        forall i | 0 <= i < k - 1 ensures tail[i].Fix? {
          assert tail[i] == argv[..k][i + 1];
        }
      }
    }
    if AllFix(argv[..k]) {
      ExactShift(op, acc, argv[..k]);
    }
  }

  /** The fold succeeds iff every argument is a number and every prefix result is in range; the value is then exact. */
  lemma {:induction false} FoldIsExact(op: FoldOp, acc: Fixnum, argv: seq<Value>)
    ensures Fold(op, acc, argv).Val? <==> forall k | 0 <= k <= |argv| :: PrefixFits(op, acc, argv, k)
    ensures Fold(op, acc, argv).Val? ==> AllFix(argv) && IsFix(Fold(op, acc, argv).v, Exact(op, acc, argv))
    decreases |argv|
  {
    assert argv[..0] == [];
    assert PrefixFits(op, acc, argv, 0);
    if argv == [] {
    } else if !argv[0].Fix? {
      assert argv[..1][0] == argv[0];
      assert !PrefixFits(op, acc, argv, 1);
    } else {
      var r := ApplyOp(op, acc, argv[0].n);
      forall k | 0 < k <= |argv| ensures PrefixFits(op, acc, argv, k) <==> PrefixFits(op, r, argv[1..], k - 1) {
        PrefixShift(op, acc, argv, k);
      }
      assert argv[1..][..0] == [];
      if !FitsFixnum(r) {
        assert !PrefixFits(op, acc, argv, 1);
      } else {
        FoldIsExact(op, r, argv[1..]);
        assert forall k | 0 <= k <= |argv[1..]| ::
            PrefixFits(op, acc, argv, k + 1) <==> PrefixFits(op, r, argv[1..], k);
        if Fold(op, acc, argv).Val? {
          assert forall i | 0 <= i < |argv| :: i > 0 ==> argv[i] == argv[1..][i - 1];
          ExactShift(op, acc, argv);
        }
      }
    }
  }

  // The prefix of length `k` is fine, the one with one more argument is not, and
  // that argument decides the status.
  ghost predicate FirstObstacle(op: FoldOp, acc: int, argv: seq<Value>, k: nat, st: Error) {
    && k < |argv|
    && PrefixFits(op, acc, argv, k)
    && !PrefixFits(op, acc, argv, k + 1)
    && st == (if argv[k].Fix? then Overflow else TypeError)
  }

  lemma ObstacleAtFront(op: FoldOp, acc: Fixnum, argv: seq<Value>)
    requires argv != [] && (argv[0].Fix? ==> !FitsFixnum(ApplyOp(op, acc, argv[0].n)))
    ensures FirstObstacle(op, acc, argv, 0, if argv[0].Fix? then Overflow else TypeError)
  {
    assert argv[..0] == [] && argv[..1] == [argv[0]] && argv[..1][1..] == [];
    if argv[0].Fix? {
      ExactShift(op, acc, argv[..1]);
    }
  }

  lemma ObstacleLater(op: FoldOp, acc: Fixnum, argv: seq<Value>, k: nat, st: Error)
    requires argv != [] && argv[0].Fix? && FitsFixnum(ApplyOp(op, acc, argv[0].n))
    requires FirstObstacle(op, ApplyOp(op, acc, argv[0].n), argv[1..], k, st)
    ensures FirstObstacle(op, acc, argv, k + 1, st)
  {
    PrefixShift(op, acc, argv, k + 1);
    PrefixShift(op, acc, argv, k + 2);
  }

  /** A failing fold reports the first obstacle: a non-number, or a prefix result out of range. */
  lemma {:induction false} FoldFailure(op: FoldOp, acc: Fixnum, argv: seq<Value>) returns (k: nat)
    requires Fold(op, acc, argv).Err?
    ensures FirstObstacle(op, acc, argv, k, Fold(op, acc, argv).st)
    decreases |argv|
  {
    if argv[0].Fix? && FitsFixnum(ApplyOp(op, acc, argv[0].n)) {
      var r := ApplyOp(op, acc, argv[0].n);
      k := FoldFailure(op, r, argv[1..]);
      ObstacleLater(op, acc, argv, k, Fold(op, r, argv[1..]).st);
      k := k + 1;
    } else {
      ObstacleAtFront(op, acc, argv);
      k := 0;
    }
  }

  ghost predicate IsFix(v: Value, n: int) {
    v.Fix? && v.n == n
  }

  // The sum and the product of numbers; of none, 0 and 1.
  ghost function Sum(argv: seq<Value>): int
    requires AllFix(argv)
  {
    if argv == [] then 0 else argv[0].n + Sum(argv[1..])
  }

  ghost function Product(argv: seq<Value>): int
    requires AllFix(argv)
  {
    if argv == [] then 1 else argv[0].n * Product(argv[1..])
  }

  // What a fold has computed after all of `argv`.
  lemma {:induction false} ExactIsTotal(op: FoldOp, acc: int, argv: seq<Value>)
    requires AllFix(argv)
    ensures Exact(op, acc, argv) ==
      match op case Plus => acc + Sum(argv) case Minus => acc - Sum(argv) case Times => acc * Product(argv)
    decreases |argv|
  {
    if argv != [] {
      ExactShift(op, acc, argv);
      ExactIsTotal(op, ApplyOp(op, acc, argv[0].n), argv[1..]);
      if op == Times {
        assert acc * argv[0].n * Product(argv[1..]) == acc * (argv[0].n * Product(argv[1..]));
      }
    }
  }

  ghost predicate SumsFit(argv: seq<Value>, k: nat)
    requires k <= |argv|
  {
    AllFix(argv[..k]) && FitsFixnum(Sum(argv[..k]))
  }

  ghost predicate ProductsFit(argv: seq<Value>, k: nat)
    requires k <= |argv|
  {
    AllFix(argv[..k]) && FitsFixnum(Product(argv[..k]))
  }

  // `first` less the sum of the first `k` of the others.
  ghost predicate DifferencesFit(first: int, others: seq<Value>, k: nat)
    requires k <= |others|
  {
    AllFix(others[..k]) && FitsFixnum(first - Sum(others[..k]))
  }

  lemma PrefixMeans(op: FoldOp, acc: int, argv: seq<Value>, k: nat)
    requires k <= |argv|
    ensures PrefixFits(op, acc, argv, k) <==> AllFix(argv[..k]) && FitsFixnum(
      match op
      case Plus => acc + Sum(argv[..k])
      case Minus => acc - Sum(argv[..k])
      case Times => acc * Product(argv[..k]))
  {
    if AllFix(argv[..k]) {
      ExactIsTotal(op, acc, argv[..k]);
    }
  }

  lemma FoldMeans(op: FoldOp, acc: Fixnum, argv: seq<Value>)
    ensures var r := Fold(op, acc, argv);
      && (r.Val? <==> forall k | 0 <= k <= |argv| :: PrefixFits(op, acc, argv, k))
      && (r.Val? ==> AllFix(argv) && IsFix(r.v,
            match op case Plus => acc + Sum(argv) case Minus => acc - Sum(argv) case Times => acc * Product(argv)))
  {
    FoldIsExact(op, acc, argv);
    if Fold(op, acc, argv).Val? {
      ExactIsTotal(op, acc, argv);
    }
  }

  lemma AddMeans(argv: seq<Value>)
    ensures AddSpec(argv).Val? <==> forall k | 0 <= k <= |argv| :: SumsFit(argv, k)
    ensures AddSpec(argv).Val? ==> AllFix(argv) && IsFix(AddSpec(argv).v, Sum(argv))
  {
    FoldMeans(Plus, 0, argv);
    forall k | 0 <= k <= |argv| ensures SumsFit(argv, k) <==> PrefixFits(Plus, 0, argv, k) {
      PrefixMeans(Plus, 0, argv, k);
    }
  }

  lemma MulMeans(argv: seq<Value>)
    ensures MulSpec(argv).Val? <==> forall k | 0 <= k <= |argv| :: ProductsFit(argv, k)
    ensures MulSpec(argv).Val? ==> AllFix(argv) && IsFix(MulSpec(argv).v, Product(argv))
  {
    FoldMeans(Times, 1, argv);
    forall k | 0 <= k <= |argv| ensures ProductsFit(argv, k) <==> PrefixFits(Times, 1, argv, k) {
      PrefixMeans(Times, 1, argv, k);
    }
  }

  lemma SubMeans(argv: seq<Value>)
    requires argv != [] && argv[0].Fix?
    ensures |argv| == 1 ==>
      (SubSpec(argv).Val? <==> FitsFixnum(-(argv[0].n as int))) &&
      (SubSpec(argv).Val? ==> IsFix(SubSpec(argv).v, -(argv[0].n as int)))
    ensures |argv| > 1 ==>
      (SubSpec(argv).Val? <==> forall k | 0 <= k < |argv| :: DifferencesFit(argv[0].n, argv[1..], k)) &&
      (SubSpec(argv).Val? ==> AllFix(argv[1..]) && IsFix(SubSpec(argv).v, argv[0].n - Sum(argv[1..])))
  {
    var first: int, others := argv[0].n, argv[1..];
    if |argv| > 1 {
      FoldMeans(Minus, first, others);
      forall k | 0 <= k <= |others| ensures DifferencesFit(first, others, k) <==> PrefixFits(Minus, first, others, k) {
        PrefixMeans(Minus, first, others, k);
      }
    } else {
      var v := 0 - first;
      assert others == [] && ApplyOp(Minus, 0, first) == v;
      assert Fold(Minus, 0, argv) == if FitsFixnum(v) then Val(Fix(v)) else Err(Overflow);
    }
  }

  function AddSpec(argv: seq<Value>): PrimResult {
    Fold(Plus, 0, argv)
  }

  function MulSpec(argv: seq<Value>): PrimResult {
    Fold(Times, 1, argv)
  }

  // One argument is negated; more are subtracted from the first.
  function SubSpec(argv: seq<Value>): PrimResult
    requires argv != []
  {
    if !argv[0].Fix? then Err(TypeError)
    else if |argv| == 1 then Fold(Minus, 0, argv)
    else Fold(Minus, argv[0].n, argv[1..])
  }

  method PrimAdd(argv: seq<Value>) returns (r: PrimResult)
    ensures r == AddSpec(argv)
    ensures r.Val? <==> forall k | 0 <= k <= |argv| :: SumsFit(argv, k)
    ensures r.Val? ==> AllFix(argv) && IsFix(r.v, Sum(argv))
  {
    AddMeans(argv);
    var acc: Fixnum := 0;
    for i := 0 to |argv|
      invariant Fold(Plus, acc, argv[i..]) == AddSpec(argv)
    {
      if !argv[i].Fix? {
        return Err(TypeError);
      }
      var sum := acc + argv[i].n;
      if !FitsInt64(sum) || !FitsFixnum(sum) {
        return Err(Overflow);
      }
      acc := sum;
    }
    r := Val(Fix(acc));
  }

  method PrimMul(argv: seq<Value>) returns (r: PrimResult)
    ensures r == MulSpec(argv)
    ensures r.Val? <==> forall k | 0 <= k <= |argv| :: ProductsFit(argv, k)
    ensures r.Val? ==> AllFix(argv) && IsFix(r.v, Product(argv))
  {
    MulMeans(argv);
    var acc: Fixnum := 1;
    for i := 0 to |argv|
      invariant Fold(Times, acc, argv[i..]) == MulSpec(argv)
    {
      if !argv[i].Fix? {
        return Err(TypeError);
      }
      var prod := acc * argv[i].n;
      if !FitsInt64(prod) || !FitsFixnum(prod) {
        return Err(Overflow);
      }
      acc := prod;
    }
    r := Val(Fix(acc));
  }

  method PrimSub(argv: seq<Value>) returns (r: PrimResult)
    requires argv != []
    ensures r == SubSpec(argv)
    ensures !argv[0].Fix? ==> r == Err(TypeError)
    ensures argv[0].Fix? && |argv| == 1 ==>
      (r.Val? <==> FitsFixnum(-(argv[0].n as int))) && (r.Val? ==> IsFix(r.v, -(argv[0].n as int)))
    ensures argv[0].Fix? && |argv| > 1 ==>
      (r.Val? <==> forall k | 0 <= k < |argv| :: DifferencesFit(argv[0].n, argv[1..], k)) &&
      (r.Val? ==> AllFix(argv[1..]) && IsFix(r.v, argv[0].n - Sum(argv[1..])))
  {
    if argv[0].Fix? {
      SubMeans(argv);
    }
    if |argv| == 1 {
      if !argv[0].Fix? {
        return Err(TypeError);
      }
      var first: int := argv[0].n;
      var v := -first;
      assert argv[1..] == [] && Fold(Minus, 0, argv) == if FitsFixnum(v) then Val(Fix(v)) else Err(Overflow);
      if !FitsFixnum(v) {
        return Err(Overflow);
      }
      return Val(Fix(v));
    }
    if !argv[0].Fix? {
      return Err(TypeError);
    }
    var acc: Fixnum := argv[0].n;
    for i := 1 to |argv|
      invariant Fold(Minus, acc, argv[i..]) == SubSpec(argv)
    {
      if !argv[i].Fix? {
        return Err(TypeError);
      }
      var diff := acc - argv[i].n;
      if !FitsInt64(diff) || !FitsFixnum(diff) {
        return Err(Overflow);
      }
      acc := diff;
    }
    r := Val(Fix(acc));
  }

  // ------------------------------------------------------------ division

  function Abs(x: int): nat {
    if x < 0 then -x else x
  }

  // C's `/`: truncates toward zero.
  function TruncDiv(a: int, b: int): int
    requires b != 0
  {
    if (a < 0) == (b < 0) then Abs(a) / Abs(b) else -(Abs(a) / Abs(b))
  }

  // C's `%`: the remainder of truncated division.
  function TruncRem(a: int, b: int): int
    requires b != 0
  {
    if a < 0 then -(Abs(a) % Abs(b)) else Abs(a) % Abs(b)
  }

  function DivFold(acc: Fixnum, argv: seq<Value>): PrimResult
    decreases |argv|
  {
    if argv == [] then Val(Fix(acc))
    else if !argv[0].Fix? then Err(TypeError)
    else if argv[0].n == 0 then Err(DivZero)
    else
      var q := TruncDiv(acc, argv[0].n);
      if FitsFixnum(q) then DivFold(q, argv[1..]) else Err(Overflow)
  }

  function DivSpec(argv: seq<Value>): PrimResult
    requires argv != []
  {
    if !argv[0].Fix? then Err(TypeError)
    else if |argv| == 1 then DivFold(1, argv)
    else DivFold(argv[0].n, argv[1..])
  }

  method PrimDiv(argv: seq<Value>) returns (r: PrimResult)
    requires argv != []
    ensures r == DivSpec(argv)
    ensures !argv[0].Fix? ==> r == Err(TypeError)
    ensures argv[0].Fix? && |argv| == 1 ==>
      (r.Val? <==> argv[0].n != 0) && (r.Val? ==> IsFix(r.v, TruncDiv(1, argv[0].n)))
    ensures argv[0].Fix? && |argv| > 1 ==>
      (r.Val? <==> forall k | 0 <= k < |argv| :: QuotientsFit(argv[0].n, argv[1..], k)) &&
      (r.Val? ==>
         AllFix(argv[1..]) && Product(argv[1..]) != 0 && IsFix(r.v, TruncDiv(argv[0].n, Product(argv[1..]))))
  {
    if argv[0].Fix? {
      DivMeans(argv);
    }
    if |argv| == 1 {
      if !argv[0].Fix? {
        return Err(TypeError);
      }
      var v := argv[0].n;
      if v == 0 {
        return Err(DivZero);
      }
      assert argv[1..] == [];
      SmallQuotient(v);
      assert DivFold(1, argv) == DivFold(TruncDiv(1, v), argv[1..]);
      return Val(Fix(if v == 1 then 1 else if v == -1 then -1 else 0));
    }
    if !argv[0].Fix? {
      return Err(TypeError);
    }
    var acc: Fixnum := argv[0].n;
    for i := 1 to |argv|
      invariant DivFold(acc, argv[i..]) == DivSpec(argv)
    {
      if !argv[i].Fix? {
        return Err(TypeError);
      }
      var v := argv[i].n;
      if v == 0 {
        return Err(DivZero);
      }
      var q := TruncDiv(acc, v);
      if !FitsFixnum(q) {
        return Err(Overflow);
      }
      acc := q;
    }
    r := Val(Fix(acc));
  }

  lemma SmallQuotient(v: int)
    requires v != 0
    ensures TruncDiv(1, v) == if v == 1 then 1 else if v == -1 then -1 else 0
  {
    if Abs(v) > 1 {
      assert 1 / Abs(v) == 0;
    }
  }

  lemma MulMono(y: nat, a: nat, b: nat)
    requires a < b
    ensures y * a + y <= y * b
  {
    assert y * b == y * a + y * (b - a);
    assert y * (b - a) == y + y * (b - a - 1);
  }

  lemma NegativeFactor(y: int, q: int)
    requires y > 0
    ensures q < 0 ==> y * q <= -y
  {
    assert y * q == -y + y * (q + 1);
    assert q < 0 ==> y * (q + 1) <= 0;
  }

  lemma FactorBound(x: int, y: int, q: int, r: int)
    requires x >= 0 && x == y * q + r && 0 <= r < y
    ensures 0 <= q <= x
  {
    NegativeFactor(y, q);
    assert y * q == q + (y - 1) * q;
    assert (y - 1) * q >= 0;
  }

  lemma Euclid(x: nat, y: nat)
    requires y > 0
    ensures x == y * (x / y) + x % y
    ensures 0 <= x / y <= x
  {
    FactorBound(x, y, x / y, x % y);
  }

  lemma DivModUnique(x: nat, y: nat, q: nat, r: nat)
    requires y > 0 && x == y * q + r && r < y
    ensures x / y == q && x % y == r
  {
    var q', r' := x / y, x % y;
    Euclid(x, y);
    if q < q' {
      MulMono(y, q, q');
    } else if q' < q {
      MulMono(y, q', q);
    }
  }

  lemma DivDiv(x: nat, y: nat, z: nat)
    requires y > 0 && z > 0
    ensures y * z > 0 && x / y / z == x / (y * z)
  {
    var q, r := x / y, x % y;
    var q2, r2 := q / z, q % z;
    Euclid(x, y);
    Euclid(q, z);
    MulMono(y, 0, z);
    MulMono(y, r2, z);
    assert y * q == y * (z * q2) + y * r2;
    assert y * (z * q2) == (y * z) * q2;
    DivModUnique(x, y * z, q2, y * r2 + r);
  }

  lemma AbsProduct(b: int, c: int)
    ensures Abs(b * c) == Abs(b) * Abs(c)
    ensures b != 0 && c != 0 ==> b * c != 0 && ((b * c < 0) <==> ((b < 0) != (c < 0)))
  {
    if b < 0 {
      assert b * c == -(Abs(b) * c);
    }
    if c < 0 {
      assert b * c == -(b * Abs(c));
    }
  }

  lemma QuotientIsNat(x: nat, y: nat)
    requires y > 0
    ensures 0 <= x / y <= x
  {
    Euclid(x, y);
  }

  lemma TruncDivSign(a: int, b: int)
    requires b != 0
    ensures Abs(TruncDiv(a, b)) == Abs(a) / Abs(b)
    ensures TruncDiv(a, b) < 0 ==> (a < 0) != (b < 0)
    ensures TruncDiv(a, b) > 0 ==> (a < 0) == (b < 0)
  {
    QuotientIsNat(Abs(a), Abs(b));
  }

  /** Dividing by b and then by c truncates to the same integer as dividing by b*c. */
  lemma TruncDivChain(a: int, b: int, c: int)
    requires b != 0 && c != 0
    ensures b * c != 0 && TruncDiv(TruncDiv(a, b), c) == TruncDiv(a, b * c)
  {
    AbsProduct(b, c);
    var q := TruncDiv(a, b);
    TruncDivSign(a, b);
    TruncDivSign(q, c);
    TruncDivSign(a, b * c);
    DivDiv(Abs(a), Abs(b), Abs(c));
  }

  /** A successful `(/ a b1 ... bn)` is the truncated quotient of a by the product of the b's. */
  lemma {:induction false} DivIsByProduct(acc: Fixnum, argv: seq<Value>)
    requires DivFold(acc, argv).Val?
    ensures AllFix(argv) && Product(argv) != 0
    ensures IsFix(DivFold(acc, argv).v, TruncDiv(acc, Product(argv)))
    decreases |argv|
  {
    if argv != [] {
      var q := TruncDiv(acc, argv[0].n);
      DivIsByProduct(q, argv[1..]);
      assert forall i | 0 <= i < |argv| :: i > 0 ==> argv[i] == argv[1..][i - 1];
      TruncDivChain(acc, argv[0].n, Product(argv[1..]));
    }
  }

  // Dividing `first` by the first `k` divisors in turn stays defined and in range.
  ghost predicate QuotientsFit(first: int, divisors: seq<Value>, k: nat)
    requires k <= |divisors|
  {
    AllFix(divisors[..k]) && Product(divisors[..k]) != 0 && FitsFixnum(TruncDiv(first, Product(divisors[..k])))
  }

  lemma QuotientShift(first: int, divisors: seq<Value>, k: nat)
    requires 0 < k <= |divisors| && divisors[0].Fix? && divisors[0].n != 0
    ensures QuotientsFit(first, divisors, k) <==> QuotientsFit(TruncDiv(first, divisors[0].n), divisors[1..], k - 1)
  {
    var head, tail := divisors[..k], divisors[1..][..k - 1];
    assert head[1..] == tail;
    assert AllFix(head) <==> AllFix(tail) by {
      if AllFix(tail) {
        forall i | 0 <= i < k ensures head[i].Fix? {
          assert i > 0 ==> head[i] == tail[i - 1];
        }
      }
    }
    if AllFix(head) {
      AbsProduct(divisors[0].n, Product(tail));
      if Product(tail) != 0 {
        TruncDivChain(first, divisors[0].n, Product(tail));
      }
    }
  }

  lemma {:induction false} DivFoldSucceeds(first: Fixnum, divisors: seq<Value>)
    ensures DivFold(first, divisors).Val? <==> forall k | 0 <= k <= |divisors| :: QuotientsFit(first, divisors, k)
    decreases |divisors|
  {
    assert divisors[..0] == [] && TruncDiv(first, 1) == first && QuotientsFit(first, divisors, 0);
    if divisors != [] {
      assert divisors[..1] == [divisors[0]] && divisors[..1][1..] == [];
      if !divisors[0].Fix? || divisors[0].n == 0 || !FitsFixnum(TruncDiv(first, divisors[0].n)) {
        assert !QuotientsFit(first, divisors, 1);
      } else {
        var q := TruncDiv(first, divisors[0].n);
        DivFoldSucceeds(q, divisors[1..]);
        forall k | 0 < k <= |divisors|
          ensures QuotientsFit(first, divisors, k) <==> QuotientsFit(q, divisors[1..], k - 1)
        {
          QuotientShift(first, divisors, k);
        }
        assert forall k | 0 <= k <= |divisors[1..]| ::
            QuotientsFit(first, divisors, k + 1) <==> QuotientsFit(q, divisors[1..], k);
      }
    }
  }

  // The first divisor that is no number, is zero, or takes the quotient out of range decides the status.
  ghost predicate DivObstacle(first: int, divisors: seq<Value>, k: nat, st: Error) {
    && k < |divisors|
    && QuotientsFit(first, divisors, k)
    && !QuotientsFit(first, divisors, k + 1)
    && st == if !divisors[k].Fix? then TypeError else if divisors[k].n == 0 then DivZero else Overflow
  }

  /** A failing division reports its first obstacle. */
  lemma {:induction false} DivFailure(first: Fixnum, divisors: seq<Value>) returns (k: nat)
    requires DivFold(first, divisors).Err?
    ensures DivObstacle(first, divisors, k, DivFold(first, divisors).st)
    decreases |divisors|
  {
    assert divisors[..0] == [] && TruncDiv(first, 1) == first && QuotientsFit(first, divisors, 0);
    assert divisors[..1] == [divisors[0]] && divisors[..1][1..] == [];
    if divisors[0].Fix? && divisors[0].n != 0 && FitsFixnum(TruncDiv(first, divisors[0].n)) {
      var q := TruncDiv(first, divisors[0].n);
      k := DivFailure(q, divisors[1..]);
      QuotientShift(first, divisors, k + 1);
      QuotientShift(first, divisors, k + 2);
      k := k + 1;
    } else {
      k := 0;
    }
  }

  lemma DivMeans(argv: seq<Value>)
    requires argv != [] && argv[0].Fix?
    ensures |argv| == 1 ==>
      (DivSpec(argv).Val? <==> argv[0].n != 0) &&
      (DivSpec(argv).Val? ==> IsFix(DivSpec(argv).v, TruncDiv(1, argv[0].n)))
    ensures |argv| > 1 ==>
      (DivSpec(argv).Val? <==> forall k | 0 <= k < |argv| :: QuotientsFit(argv[0].n, argv[1..], k)) &&
      (DivSpec(argv).Val? ==>
         AllFix(argv[1..]) && Product(argv[1..]) != 0 &&
         IsFix(DivSpec(argv).v, TruncDiv(argv[0].n, Product(argv[1..]))))
  {
    if |argv| > 1 {
      DivFoldSucceeds(argv[0].n, argv[1..]);
      if DivSpec(argv).Val? {
        DivIsByProduct(argv[0].n, argv[1..]);
      }
    } else if argv[0].n != 0 {
      assert argv[1..] == [];
      SmallQuotient(argv[0].n);
      assert DivFold(1, argv) == DivFold(TruncDiv(1, argv[0].n), argv[1..]);
    }
  }

  lemma TruncDivBound(a: int, b: int)
    requires b != 0
    ensures Abs(TruncDiv(a, b)) <= Abs(a)
  {
    TruncDivSign(a, b);
    QuotientIsNat(Abs(a), Abs(b));
  }

  /** Division leaves the fixnum range only for the least fixnum divided by -1. */
  lemma DivOverflowsOnlyAtMin(a: Fixnum, b: Fixnum)
    requires b != 0
    ensures !FitsFixnum(TruncDiv(a, b)) <==> a == FIX_MIN && b == -1
  {
    TruncDivBound(a, b);
    TruncDivSign(a, b);
    if a == FIX_MIN && b < -1 {
      var x, y := Abs(a), Abs(b);
      Euclid(x, y);
      MulMono(x / y, 1, y);
    }
  }

  function QuotientSpec(a: Value, b: Value): PrimResult {
    if !a.Fix? || !b.Fix? then Err(TypeError)
    else if b.n == 0 then Err(DivZero)
    else
      var q := TruncDiv(a.n, b.n);
      if FitsFixnum(q) then Val(Fix(q)) else Err(Overflow)
  }

  method PrimQuotient(a: Value, b: Value) returns (r: PrimResult)
    ensures r == QuotientSpec(a, b)
    ensures !a.Fix? || !b.Fix? ==> r == Err(TypeError)
    ensures a.Fix? && b.Fix? && b.n == 0 ==> r == Err(DivZero)
    ensures a == Fix(FIX_MIN) && b == Fix(-1) ==> r == Err(Overflow)
    ensures r.Val? ==> IsFix(r.v, TruncDiv(a.n, b.n))
    ensures r.Val? <==> a.Fix? && b.Fix? && b.n != 0 && !(a.n == FIX_MIN && b.n == -1)
  {
    if !a.Fix? || !b.Fix? {
      return Err(TypeError);
    }
    if b.n == 0 {
      return Err(DivZero);
    }
    DivOverflowsOnlyAtMin(a.n, b.n);
    var result := TruncDiv(a.n, b.n);
    if !FitsFixnum(result) {
      return Err(Overflow);
    }
    r := Val(Fix(result));
  }

  lemma TruncRemIdentity(a: int, b: int)
    requires b != 0
    ensures a == b * TruncDiv(a, b) + TruncRem(a, b)
    ensures Abs(TruncRem(a, b)) < Abs(b)
    ensures TruncRem(a, b) != 0 ==> (TruncRem(a, b) < 0) == (a < 0)
  {
    var x: int, y: int := Abs(a), Abs(b);
    var q := x / y;
    Euclid(x, y);
    assert (-y) * q == -(y * q) && y * (-q) == -(y * q) && (-y) * (-q) == y * q;
  }

  function RemainderSpec(a: Fixnum, b: Fixnum): (r: Fixnum)
    requires b != 0
  {
    TruncRemIdentity(a, b);
    TruncRem(a, b)
  }

  method PrimRemainder(a: Value, b: Value) returns (r: PrimResult)
    ensures r.Err? ==> r.st == if !a.Fix? || !b.Fix? then TypeError else DivZero
    ensures r.Val? <==> a.Fix? && b.Fix? && b.n != 0
    ensures r.Val? ==> r.v == Fix(RemainderSpec(a.n, b.n))
  {
    if !a.Fix? || !b.Fix? {
      return Err(TypeError);
    }
    if b.n == 0 {
      return Err(DivZero);
    }
    r := Val(Fix(RemainderSpec(a.n, b.n)));
  }

  function ModuloSpec(a: Fixnum, b: Fixnum): (r: Fixnum)
    requires b != 0
  {
    var r := RemainderSpec(a, b);
    TruncRemIdentity(a, b);
    if r != 0 && ((r < 0) != (b < 0)) then r + b else r
  }

  method PrimModulo(a: Value, b: Value) returns (r: PrimResult)
    ensures r.Err? ==> r.st == if !a.Fix? || !b.Fix? then TypeError else DivZero
    ensures r.Val? <==> a.Fix? && b.Fix? && b.n != 0
    ensures r.Val? ==> r.v == Fix(ModuloSpec(a.n, b.n))
  {
    if !a.Fix? || !b.Fix? {
      return Err(TypeError);
    }
    if b.n == 0 {
      return Err(DivZero);
    }
    var m: int := RemainderSpec(a.n, b.n);
    TruncRemIdentity(a.n, b.n);
    if m != 0 && ((m < 0) != (b.n < 0)) {
      m := m + b.n;
    }
    r := Val(Fix(m));
  }

  /** Section 6.2.5 of R5RS: the division identities, and the sign of remainder and modulo. */
  lemma DivisionLaws(a: Fixnum, b: Fixnum)
    requires b != 0
    ensures a == b * TruncDiv(a, b) + RemainderSpec(a, b)
    ensures Abs(RemainderSpec(a, b)) < Abs(b) && Abs(ModuloSpec(a, b)) < Abs(b)
    ensures RemainderSpec(a, b) != 0 ==> (RemainderSpec(a, b) < 0) == (a < 0)
    ensures ModuloSpec(a, b) != 0 ==> (ModuloSpec(a, b) < 0) == (b < 0)
    ensures exists k :: a == b * k + ModuloSpec(a, b)
    ensures RemainderSpec(a, b) == 0 <==> ModuloSpec(a, b) == 0
  {
    TruncRemIdentity(a, b);
    var q, r, m := TruncDiv(a, b), RemainderSpec(a, b), ModuloSpec(a, b);
    if m == r {
      assert a == b * q + m;
    } else {
      assert b * (q - 1) == b * q - b;
      assert a == b * (q - 1) + m;
    }
  }

  // ------------------------------------------------------------ comparison

  datatype CmpOp = CmpEq | CmpLt | CmpGt | CmpLe | CmpGe

  predicate Compare(op: CmpOp, a: int, b: int) {
    match op
    case CmpEq => a == b
    case CmpLt => a < b
    case CmpGt => a > b
    case CmpLe => a <= b
    case CmpGe => a >= b
  }

  function Chain(op: CmpOp, prev: int, argv: seq<Value>): PrimResult
    decreases |argv|
  {
    if argv == [] then Val(True)
    else if !argv[0].Fix? then Err(TypeError)
    else if !Compare(op, prev, argv[0].n) then Val(False)
    else Chain(op, argv[0].n, argv[1..])
  }

  function CmpSpec(op: CmpOp, argv: seq<Value>): PrimResult
    requires argv != []
  {
    if !argv[0].Fix? then Err(TypeError) else Chain(op, argv[0].n, argv[1..])
  }

  // The comparisons by what they mean for a whole argument list.
  ghost predicate Increasing(argv: seq<Value>)
    requires AllFix(argv)
  {
    forall i, j | 0 <= i < j < |argv| :: argv[i].n < argv[j].n
  }

  ghost predicate Decreasing(argv: seq<Value>)
    requires AllFix(argv)
  {
    forall i, j | 0 <= i < j < |argv| :: argv[i].n > argv[j].n
  }

  ghost predicate NeverFalls(argv: seq<Value>)
    requires AllFix(argv)
  {
    forall i, j | 0 <= i < j < |argv| :: argv[i].n <= argv[j].n
  }

  ghost predicate NeverRises(argv: seq<Value>)
    requires AllFix(argv)
  {
    forall i, j | 0 <= i < j < |argv| :: argv[i].n >= argv[j].n
  }

  ghost predicate AllEqual(argv: seq<Value>)
    requires AllFix(argv)
  {
    forall i, j | 0 <= i < j < |argv| :: argv[i].n == argv[j].n
  }

  lemma ComparisonsMean(op: CmpOp, argv: seq<Value>)
    requires argv != [] && AllFix(argv)
    ensures CmpSpec(op, argv) == Val(Bool(
      match op
      case CmpEq => AllEqual(argv)
      case CmpLt => Increasing(argv)
      case CmpGt => Decreasing(argv)
      case CmpLe => NeverFalls(argv)
      case CmpGe => NeverRises(argv)))
  {
    ChainIsPairwise(op, argv);
  }

  method CmpChain(op: CmpOp, argv: seq<Value>) returns (r: PrimResult)
    requires argv != []
    ensures r == CmpSpec(op, argv)
    ensures AllFix(argv) ==>
      && r.Val?
      && (op == CmpEq ==> r.v == Bool(AllEqual(argv)))
      && (op == CmpLt ==> r.v == Bool(Increasing(argv)))
      && (op == CmpGt ==> r.v == Bool(Decreasing(argv)))
      && (op == CmpLe ==> r.v == Bool(NeverFalls(argv)))
      && (op == CmpGe ==> r.v == Bool(NeverRises(argv)))
  {
    if AllFix(argv) {
      ComparisonsMean(op, argv);
    }
    if !argv[0].Fix? {
      return Err(TypeError);
    }
    var prev: int := argv[0].n;
    for i := 1 to |argv|
      invariant Chain(op, prev, argv[i..]) == CmpSpec(op, argv)
    {
      if !argv[i].Fix? {
        return Err(TypeError);
      }
      var cur := argv[i].n;
      if !Compare(op, prev, cur) {
        return Val(False);
      }
      prev := cur;
    }
    r := Val(True);
  }

  ghost predicate Ordered(op: CmpOp, argv: seq<Value>) {
    AllFix(argv) && forall i, j | 0 <= i < j < |argv| :: Compare(op, argv[i].n, argv[j].n)
  }

  /** A chain of numbers is true iff every pair of arguments, not only neighbours, is in order. */
  lemma {:induction false} ChainIsPairwise(op: CmpOp, argv: seq<Value>)
    requires argv != [] && AllFix(argv)
    ensures CmpSpec(op, argv) == Val(Bool(Ordered(op, argv)))
    decreases |argv|
  {
    if |argv| > 1 {
      var rest := argv[1..];
      assert forall i | 0 <= i < |rest| :: rest[i] == argv[i + 1];
      ChainIsPairwise(op, rest);
      assert Ordered(op, argv) <==> Compare(op, argv[0].n, argv[1].n) && Ordered(op, rest) by {
        if Compare(op, argv[0].n, argv[1].n) && Ordered(op, rest) {
          forall i, j | 0 <= i < j < |argv| ensures Compare(op, argv[i].n, argv[j].n) {
            assert i > 0 ==> Compare(op, rest[i - 1].n, rest[j - 1].n);
            assert i == 0 && j > 1 ==> Compare(op, rest[0].n, rest[j - 1].n);
          }
        }
        if Ordered(op, argv) {
          forall i, j | 0 <= i < j < |rest| ensures Compare(op, rest[i].n, rest[j].n) {
            assert Compare(op, argv[i + 1].n, argv[j + 1].n);
          }
        }
      }
    }
  }

  // ------------------------------------------------------------ tag encoding

  const TWO64: int := 0x1_0000_0000_0000_0000
  const TAG_FIX: int := 1

  // ml_make_fix: reinterpret as uint64, shift left by three, set the tag.
  function MakeFix(x: int): (w: int)
    requires FitsInt64(x)
  {
    x % TWO64 * 8 % TWO64 + TAG_FIX
  }

  // ml_fix_int: reinterpret as int64, arithmetic shift right by three.
  function FixInt(w: int): int {
    var s := if w <= INT64_MAX then w else w - TWO64;
    s / 8
  }

  /** Decoding undoes encoding exactly on the 61-bit range the payload can hold, hence on all fixnums. */
  lemma TagRoundTrip(x: int)
    requires FitsInt64(x)
    ensures FixInt(MakeFix(x)) == x <==> -0x1000_0000_0000_0000 <= x < 0x1000_0000_0000_0000
    ensures FitsFixnum(x) ==> FixInt(MakeFix(x)) == x
    ensures 0 <= MakeFix(x) < TWO64 && MakeFix(x) % 8 == TAG_FIX
  {
    var u := x % TWO64;
    assert u == if x < 0 then x + TWO64 else x;
    var k := u * 8 / TWO64;
    var w := u * 8 % TWO64;
    assert u * 8 == k * TWO64 + w;
    assert w == 8 * (u - k * 0x2000_0000_0000_0000);
  }
}
