/** Column values and the aggregate functions of GROUP BY. */
module Aggregates {
  import opened Bytes
  import opened Multimaps

  /** A column value; the alternatives are in the order of the thrift union. */
  datatype ColVal =
    | Empty
    | BoolVal(b: bool)
    | Integer(i: int)
    | Id(id: int)
    | SinglePrecision(f: real)
    | DoublePrecision(d: real)
    | Str(s: seq<byte>)
    | Timestamp(t: int)

  function TypeOf(v: ColVal): nat {
    match v
    case Empty => 0
    case BoolVal(_) => 1
    case Integer(_) => 2
    case Id(_) => 3
    case SinglePrecision(_) => 4
    case DoublePrecision(_) => 5
    case Str(_) => 6
    case Timestamp(_) => 7
  }

  predicate StrLess(a: seq<byte>, b: seq<byte>) {
    if b == [] then false
    else if a == [] then true
    else a[0] < b[0] || (a[0] == b[0] && StrLess(a[1..], b[1..]))
  }

  /** The order of the union: the type first, then the value. */
  predicate Less(a: ColVal, b: ColVal) {
    if TypeOf(a) != TypeOf(b) then TypeOf(a) < TypeOf(b)
    else
      match (a, b)
      case (BoolVal(x), BoolVal(y)) => !x && y
      case (Integer(x), Integer(y)) => x < y
      case (Id(x), Id(y)) => x < y
      case (SinglePrecision(x), SinglePrecision(y)) => x < y
      case (DoublePrecision(x), DoublePrecision(y)) => x < y
      case (Str(x), Str(y)) => StrLess(x, y)
      case (Timestamp(x), Timestamp(y)) => x < y
      case _ => false
  }

  lemma {:induction false} StrLessTransitive(a: seq<byte>, b: seq<byte>, c: seq<byte>)
    ensures StrLess(a, b) && StrLess(b, c) ==> StrLess(a, c)
    ensures !StrLess(a, b) && !StrLess(b, c) ==> !StrLess(a, c)
  {
    if a != [] && b != [] && c != [] {
      StrLessTransitive(a[1..], b[1..], c[1..]);
    }
  }

  lemma LessTransitive(a: ColVal, b: ColVal, c: ColVal)
    ensures Less(a, b) && Less(b, c) ==> Less(a, c)
    ensures !Less(a, b) && !Less(b, c) ==> !Less(a, c)
  {
    hide StrLess;
    if TypeOf(a) != TypeOf(b) || TypeOf(b) != TypeOf(c) {
    } else {
      match a
      case Str(_) => StrLessTransitive(a.s, b.s, c.s);
      case _ =>
    }
  }

  lemma {:induction false} StrLessIrreflexive(a: seq<byte>)
    ensures !StrLess(a, a)
  {
    if a != [] {
      StrLessIrreflexive(a[1..]);
    }
  }

  lemma {:induction false} StrLessTotal(a: seq<byte>, b: seq<byte>)
    ensures StrLess(a, b) || StrLess(b, a) || a == b
    ensures !(StrLess(a, b) && StrLess(b, a))
  {
    if a != [] && b != [] {
      StrLessTotal(a[1..], b[1..]);
      assert a == [a[0]] + a[1..] && b == [b[0]] + b[1..];
    }
  }

  lemma LessTotal(a: ColVal, b: ColVal)
    ensures Less(a, b) || Less(b, a) || a == b
    ensures !(Less(a, b) && Less(b, a)) && !Less(a, a)
  {
    if a.Str? && b.Str? {
      StrLessTotal(a.s, b.s);
    }
    if a.Str? {
      StrLessIrreflexive(a.s);
    }
  }

  // ----- what the functions compute -----

  /** The greatest value, first come on ties; Empty of nothing. */
  function MaxOf(vals: seq<ColVal>): ColVal {
    if vals == [] then Empty
    else if |vals| == 1 then vals[0]
    else
      var m := MaxOf(vals[..|vals| - 1]);
      if Less(m, vals[|vals| - 1]) then vals[|vals| - 1] else m
  }

  function MinOf(vals: seq<ColVal>): ColVal {
    if vals == [] then Empty
    else if |vals| == 1 then vals[0]
    else
      var m := MinOf(vals[..|vals| - 1]);
      if Less(vals[|vals| - 1], m) then vals[|vals| - 1] else m
  }

  /** Max is an attained upper bound. */
  lemma {:induction false} MaxAttained(vals: seq<ColVal>)
    requires vals != []
    ensures MaxOf(vals) in vals && forall i :: 0 <= i < |vals| ==> !Less(MaxOf(vals), vals[i])
  {
    var n := |vals| - 1;
    LessTotal(vals[n], vals[n]);
    if n > 0 {
      var front := vals[..n];
      MaxAttained(front);
      forall i | 0 <= i < n
        ensures !Less(MaxOf(vals), vals[i])
      {
        assert front[i] == vals[i];
        LessTotal(MaxOf(front), vals[n]);
        LessTransitive(vals[n], MaxOf(front), vals[i]);
      }
    }
  }

  /** Min is an attained lower bound. */
  lemma {:induction false} MinAttained(vals: seq<ColVal>)
    requires vals != []
    ensures MinOf(vals) in vals && forall i :: 0 <= i < |vals| ==> !Less(vals[i], MinOf(vals))
  {
    var n := |vals| - 1;
    LessTotal(vals[n], vals[n]);
    if n > 0 {
      var front := vals[..n];
      MinAttained(front);
      forall i | 0 <= i < n
        ensures !Less(vals[i], MinOf(vals))
      {
        assert front[i] == vals[i];
        LessTotal(MinOf(front), vals[n]);
        LessTransitive(vals[i], MinOf(front), vals[n]);
      }
    }
  }

  /** The values Sum takes into account. */
  predicate Summable(v: ColVal) {
    v.Integer? || v.DoublePrecision? || v.Id? || v.Timestamp?
  }

  function Add(a: ColVal, b: ColVal): ColVal
    requires Summable(a) && TypeOf(a) == TypeOf(b)
  {
    match a
    case Integer(x) => Integer(x + b.i)
    case Id(x) => Id(x + b.id)
    case DoublePrecision(x) => DoublePrecision(x + b.d)
    case Timestamp(x) => Timestamp(x + b.t)
  }

  function Amount(v: ColVal): real {
    match v
    case Integer(x) => x as real
    case Id(x) => x as real
    case DoublePrecision(x) => x
    case Timestamp(x) => x as real
    case _ => 0.0
  }

  /** The running sum; None before the first summable value. */
  function SumOf(vals: seq<ColVal>): (s: Option<ColVal>)
    ensures s.Some? ==> Summable(s.value)
  {
    if vals == [] then None
    else
      var s, v := SumOf(vals[..|vals| - 1]), vals[|vals| - 1];
      if !Summable(v) then s
      else if s == None then Some(v)
      else if TypeOf(s.value) != TypeOf(v) then s
      else Some(Add(s.value, v))
  }

  /** The sum of the values of one type. */
  function TotalOf(t: nat, vals: seq<ColVal>): real {
    if vals == [] then 0.0
    else
      TotalOf(t, vals[..|vals| - 1]) +
      if TypeOf(vals[|vals| - 1]) == t then Amount(vals[|vals| - 1]) else 0.0
  }

  /** The first summable value fixes the type, and the sum is that of all values of this type. */
  lemma {:induction false} SumIs(vals: seq<ColVal>)
    ensures SumOf(vals) == None <==> forall i :: 0 <= i < |vals| ==> !Summable(vals[i])
    ensures forall i :: 0 <= i < |vals| && Summable(vals[i]) && (forall j :: 0 <= j < i ==> !Summable(vals[j])) ==>
      TypeOf(SumOf(vals).value) == TypeOf(vals[i])
    ensures SumOf(vals).Some? ==> Amount(SumOf(vals).value) == TotalOf(TypeOf(SumOf(vals).value), vals)
  {
    hide Add, Amount;
    if vals != [] {
      var n := |vals| - 1;
      var front := vals[..n];
      SumIs(front);
      assert forall i :: 0 <= i < n ==> front[i] == vals[i];
      NoTotal(front);
      if SumOf(front).Some? && Summable(vals[n]) && TypeOf(SumOf(front).value) == TypeOf(vals[n]) {
        AddAmounts(SumOf(front).value, vals[n]);
      }
    }
  }

  lemma AddAmounts(a: ColVal, b: ColVal)
    requires Summable(a) && TypeOf(a) == TypeOf(b)
    ensures TypeOf(Add(a, b)) == TypeOf(a) && Amount(Add(a, b)) == Amount(a) + Amount(b)
  {
  }

  lemma {:induction false} NoTotal(vals: seq<ColVal>)
    ensures (forall i :: 0 <= i < |vals| ==> !Summable(vals[i])) ==> forall t :: TotalOf(t, vals) == 0.0
  {
    if vals != [] {
      var n := |vals| - 1;
      NoTotal(vals[..n]);
      assert forall i :: 0 <= i < n ==> vals[..n][i] == vals[i];
    }
  }

  // ----- the functions -----

  datatype Kind = Group | Count | Sum | CountDistinct | Max | Min

  /** The result of an aggregate function over the values of a group, in order. */
  function Aggregate(kind: Kind, vals: seq<ColVal>): ColVal {
    match kind
    case Group => if vals == [] then Empty else vals[|vals| - 1]
    case Count => Integer(|vals|)
    case Sum => if SumOf(vals) == None then Integer(0) else SumOf(vals).value
    case CountDistinct => Integer(|set v | v in vals|)
    case Max => MaxOf(vals)
    case Min => MinOf(vals)
  }

  /** What the functions promise of the values of a group, one by one. */
  lemma AggregateLaws(vals: seq<ColVal>)
    ensures Aggregate(Count, vals) == Integer(|vals|)
    ensures (forall i :: 0 <= i < |vals| ==> !Summable(vals[i])) ==> Aggregate(Sum, vals) == Integer(0)
    ensures vals != [] ==>
      Aggregate(Group, vals) in vals && Aggregate(Max, vals) in vals && Aggregate(Min, vals) in vals
    ensures forall i :: 0 <= i < |vals| ==>
      !Less(Aggregate(Max, vals), vals[i]) && !Less(vals[i], Aggregate(Min, vals))
  {
    SumIs(vals);
    if vals != [] {
      MaxAttained(vals);
      MinAttained(vals);
    }
  }

  /** The last value applied is the one a grouping column gives. */
  lemma GroupIsLast(vals: seq<ColVal>, v: ColVal)
    ensures Aggregate(Group, vals + [v]) == v
  {
  }

  /** With a summable value: the sum of all values of the type of the first one, in that type. */
  lemma SumResult(vals: seq<ColVal>, i: nat)
    requires i < |vals| && Summable(vals[i]) && forall j :: 0 <= j < i ==> !Summable(vals[j])
    ensures var s := Aggregate(Sum, vals);
      TypeOf(s) == TypeOf(vals[i]) && Amount(s) == TotalOf(TypeOf(vals[i]), vals)
  {
    SumIs(vals);
  }

  /** Counting distinct values counts any list of them without duplicates. */
  lemma CountDistinctIs(vals: seq<ColVal>, once: seq<ColVal>)
    requires Distinct(once) && forall v :: v in once <==> v in vals
    ensures Aggregate(CountDistinct, vals) == Integer(|once|)
  {
    DistinctSize(once);
    assert (set v | v in vals) == set v | v in once;
  }

  lemma {:induction false} DistinctSize(once: seq<ColVal>)
    requires Distinct(once)
    ensures |set v | v in once| == |once|
  {
    if once != [] {
      var front, last := once[..|once| - 1], once[|once| - 1];
      DistinctSize(front);
      assert last !in front && once == front + [last];
      assert (set v | v in once) == (set v | v in front) + {last};
    }
  }

  /** Among integers the maximum is the greatest number and the minimum the least. */
  lemma IntegerExtremes(vals: seq<ColVal>)
    requires vals != [] && forall i :: 0 <= i < |vals| ==> vals[i].Integer?
    ensures var max, min := Aggregate(Max, vals), Aggregate(Min, vals);
      max.Integer? && min.Integer? && max in vals && min in vals &&
      forall i :: 0 <= i < |vals| ==> min.i <= vals[i].i <= max.i
  {
    MaxAttained(vals);
    MinAttained(vals);
  }

  /** Among doubles too. */
  lemma DoubleExtremes(vals: seq<ColVal>)
    requires vals != [] && forall i :: 0 <= i < |vals| ==> vals[i].DoublePrecision?
    ensures var max, min := Aggregate(Max, vals), Aggregate(Min, vals);
      max.DoublePrecision? && min.DoublePrecision? && max in vals && min in vals &&
      forall i :: 0 <= i < |vals| ==> min.d <= vals[i].d <= max.d
  {
    MaxAttained(vals);
    MinAttained(vals);
  }

  /** Strings: a proper prefix comes first, and else the first byte that differs decides. */
  ghost predicate Differs(a: seq<byte>, b: seq<byte>, k: nat) {
    k <= |a| && k < |b| && a[..k] == b[..k] && (k == |a| || a[k] < b[k])
  }

  lemma {:induction false} StrLessIff(a: seq<byte>, b: seq<byte>)
    ensures StrLess(a, b) <==> exists k :: Differs(a, b, k)
  {
    if b != [] && a == [] {
      assert Differs(a, b, 0);
    } else if b != [] {
      StrLessIff(a[1..], b[1..]);
      if a[0] < b[0] {
        assert Differs(a, b, 0);
      }
      if k: nat :| a[0] == b[0] && Differs(a[1..], b[1..], k) {
        assert a[..k + 1] == [a[0]] + a[1..][..k] && b[..k + 1] == [b[0]] + b[1..][..k];
        assert Differs(a, b, k + 1);
      }
      if k: nat :| Differs(a, b, k) {
        ShiftedDiffers(a, b, k);
      }
    }
  }

  lemma ShiftedDiffers(a: seq<byte>, b: seq<byte>, k: nat)
    requires a != [] && b != [] && Differs(a, b, k)
    ensures if k == 0 then a[0] < b[0] else a[0] == b[0] && Differs(a[1..], b[1..], k - 1)
  {
    if k > 0 {
      assert a[..k][0] == b[..k][0];
      assert a[1..][..k - 1] == a[..k][1..] && b[1..][..k - 1] == b[..k][1..];
    }
  }

  /** Values of different types are in the order of the union. */
  lemma TypesInOrder(b: bool, i: int, id: int, f: real, d: real, s: seq<byte>, t: int)
    ensures Less(Empty, BoolVal(b)) && Less(BoolVal(b), Integer(i)) && Less(Integer(i), Id(id))
    ensures Less(Id(id), SinglePrecision(f)) && Less(SinglePrecision(f), DoublePrecision(d))
    ensures Less(DoublePrecision(d), Str(s)) && Less(Str(s), Timestamp(t))
  {
  }

  /** And those of one type in the order of the type. */
  lemma LessWithin(a: ColVal, b: ColVal)
    ensures a.BoolVal? && b.BoolVal? ==> (Less(a, b) <==> a == BoolVal(false) && b == BoolVal(true))
    ensures a.Integer? && b.Integer? ==> (Less(a, b) <==> a.i < b.i)
    ensures a.Id? && b.Id? ==> (Less(a, b) <==> a.id < b.id)
    ensures a.Timestamp? && b.Timestamp? ==> (Less(a, b) <==> a.t < b.t)
    ensures a.SinglePrecision? && b.SinglePrecision? ==> (Less(a, b) <==> a.f < b.f)
    ensures a.DoublePrecision? && b.DoublePrecision? ==> (Less(a, b) <==> a.d < b.d)
    ensures a.Str? && b.Str? ==> (Less(a, b) <==> exists k :: Differs(a.s, b.s, k))
  {
    if a.Str? && b.Str? {
      StrLessIff(a.s, b.s);
    }
  }

  /** An aggregator: a mutable object shared by reference. */
  class AggFun {
    const kind: Kind
    var has: bool
    var val: ColVal
    var count: nat
    var seen: set<ColVal>
    /** The values applied so far. */
    ghost var applied: seq<ColVal>

    ghost predicate Valid()
      reads this
    {
      match kind
      case Group => val == Aggregate(Group, applied)
      case Count => count == |applied|
      case Sum => has == SumOf(applied).Some? && val == if has then SumOf(applied).value else Empty
      case CountDistinct => seen == set v | v in applied
      case Max => has == (applied != []) && val == MaxOf(applied)
      case Min => has == (applied != []) && val == MinOf(applied)
    }

    constructor (kind: Kind)
      ensures Valid() && this.kind == kind && applied == []
    {
      this.kind, has, val, count, seen, applied := kind, false, Empty, 0, {}, [];
    }

    method Apply(v: ColVal)
      requires Valid()
      modifies this
      ensures Valid() && applied == old(applied) + [v]
    {
      ghost var before := applied;
      applied := applied + [v];
      assert applied[..|before|] == before;
      match kind
      case Group => val := v;
      case Count => count := count + 1;
      case Sum => ApplySum(v);
      case CountDistinct => seen := seen + {v};
      case Max =>
        if !has {
          val, has := v, true;
        } else if Less(val, v) {
          val := v;
        }
      case Min =>
        if !has {
          val, has := v, true;
        } else if Less(v, val) {
          val := v;
        }
    }

    method ApplySum(v: ColVal)
      requires kind == Sum && applied != []
      requires v == applied[|applied| - 1] && has == SumOf(applied[..|applied| - 1]).Some?
      requires val == if has then SumOf(applied[..|applied| - 1]).value else Empty
      modifies this`val, this`has
      ensures Valid()
    {
      if !v.Integer? && !v.DoublePrecision? && !v.Id? && !v.Timestamp? {
        return;
      }
      if !has {
        val, has := v, true;
      } else {
        if TypeOf(val) != TypeOf(v) {
          return;
        }
        val := Add(val, v);
      }
    }

    method GetResult() returns (r: ColVal)
      requires Valid()
      ensures r == Aggregate(kind, applied)
    {
      match kind
      case Group => r := val;
      case Count => r := Integer(count);
      case Sum => r := if val == Empty then Integer(0) else val;
      case CountDistinct => r := Integer(|seen|);
      case Max => r := val;
      case Min => r := val;
    }
  }
}
