// The four DISC axes and a score per axis, shared by every scorer.
module Disc {
  import opened Wrappers

  datatype Axis = D | I | S | C

  // The order DISC_TYPES lists the axes in, and in which ties are broken.
  function Rank(a: Axis): nat
  {
    match a
    case D => 0
    case I => 1
    case S => 2
    case C => 3
  }

  const Axes: seq<Axis> := [D, I, S, C]

  lemma AxesInRankOrder(a: Axis)
    ensures Rank(a) < |Axes| && Axes[Rank(a)] == a
  {
  }

  function Label(a: Axis): string
  {
    match a
    case D => "D"
    case I => "I"
    case S => "S"
    case C => "C"
  }

  // The axis a label names exactly (case-sensitive), if any.
  function AxisOf(s: string): (r: Option<Axis>)
    ensures r.Some? ==> Label(r.value) == s
    ensures r.None? ==> forall a: Axis :: Label(a) != s
  {
    if s == "D" then Some(D)
    else if s == "I" then Some(I)
    else if s == "S" then Some(S)
    else if s == "C" then Some(C)
    else None
  }

  lemma AxisOfLabel(a: Axis)
    ensures AxisOf(Label(a)) == Some(a)
  {
  }

  datatype Scores = Scores(d: int, i: int, s: int, c: int)
  {
    function Get(a: Axis): int
    {
      match a
      case D => d
      case I => i
      case S => s
      case C => c
    }

    function Set(a: Axis, v: int): (r: Scores)
      ensures r.Get(a) == v
      ensures forall b :: b != a ==> r.Get(b) == Get(b)
    {
      match a
      case D => this.(d := v)
      case I => this.(i := v)
      case S => this.(s := v)
      case C => this.(c := v)
    }

    function Add(a: Axis, v: int): (r: Scores)
      ensures r.Get(a) == Get(a) + v
      ensures forall b :: b != a ==> r.Get(b) == Get(b)
    {
      Set(a, Get(a) + v)
    }

    function Total(): int { d + i + s + c }

    function Max(): (m: int)
      ensures forall a: Axis :: Get(a) <= m
      ensures exists a: Axis :: Get(a) == m
    {
      var m1 := if d >= i then d else i;
      var m2 := if s >= c then s else c;
      var m := if m1 >= m2 then m1 else m2;
      assert Get(D) == m || Get(I) == m || Get(S) == m || Get(C) == m;
      m
    }

    predicate AllAtLeast(lo: int) { d >= lo && i >= lo && s >= lo && c >= lo }

    predicate AllAtMost(hi: int) { d <= hi && i <= hi && s <= hi && c <= hi }
  }

  const Zero: Scores := Scores(0, 0, 0, 0)

  // a attains the maximum and every axis listed before it scores less:
  // the winner when ties go to the earliest axis in D, I, S, C order.
  predicate IsFirstMax(sc: Scores, a: Axis)
  {
    sc.Get(a) == sc.Max() && forall b: Axis :: Rank(b) < Rank(a) ==> sc.Get(b) < sc.Get(a)
  }

  // The winner when ties go to the latest axis in D, I, S, C order.
  predicate IsLastMax(sc: Scores, a: Axis)
  {
    sc.Get(a) == sc.Max() && forall b: Axis :: Rank(b) > Rank(a) ==> sc.Get(b) < sc.Get(a)
  }

  lemma RankInjective(a: Axis, b: Axis)
    ensures Rank(a) == Rank(b) ==> a == b
  {
  }

  lemma FirstMaxUnique(sc: Scores, a: Axis, b: Axis)
    requires IsFirstMax(sc, a) && IsFirstMax(sc, b)
    ensures a == b
  {
    RankInjective(a, b);
  }

  lemma LastMaxUnique(sc: Scores, a: Axis, b: Axis)
    requires IsLastMax(sc, a) && IsLastMax(sc, b)
    ensures a == b
  {
    RankInjective(a, b);
  }

  // The two tie-breaking rules pick the same axis exactly when the
  // maximum is attained by one axis only.
  lemma FirstAndLastAgreeIffUniqueMax(sc: Scores, a: Axis, b: Axis)
    requires IsFirstMax(sc, a) && IsLastMax(sc, b)
    ensures a == b <==> forall x: Axis :: sc.Get(x) == sc.Max() ==> x == a
  {
    if a == b {
      forall x: Axis | sc.Get(x) == sc.Max() ensures x == a {
        RankInjective(x, a);
      }
    } else {
      assert sc.Get(b) == sc.Max();
    }
  }

  // Two score tuples added axis by axis.
  function Plus(x: Scores, y: Scores): (r: Scores)
    ensures forall a :: r.Get(a) == x.Get(a) + y.Get(a)
  {
    Scores(x.d + y.d, x.i + y.i, x.s + y.s, x.c + y.c)
  }
}
