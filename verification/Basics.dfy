/** Facts about sets and numbers, and optional values, that several components use. */
module Basics {

  datatype Option<+T> = None | Some(value: T)

  function Max(a: int, b: int): int { if a < b then b else a }

  function Min(a: int, b: int): int { if a < b then a else b }

  lemma MulMonotone(a: nat, b: nat, c: nat)
    requires a <= b
    ensures a * c <= b * c
  {
  }

  lemma {:induction false} SubsetSize<T>(a: set<T>, b: set<T>)
    requires a <= b
    ensures |a| <= |b|
  {
    if a != {} {
      var x := OneOf(a);
      SubsetSize(a - {x}, b - {x});
    }
  }

  lemma OneOf<T>(s: set<T>) returns (x: T)
    requires s != {}
    ensures x in s
  {
    x :| x in s;
  }

  /** The least member of a set of numbers. */
  function Least(s: set<int>): (x: int)
    requires s != {}
    ensures x in s && forall y :: y in s ==> x <= y
  {
    LeastExists(s);
    var x :| x in s && forall y :: y in s ==> x <= y;
    x
  }

  lemma {:induction false} LeastExists(s: set<int>)
    requires s != {}
    ensures exists x :: x in s && forall y :: y in s ==> x <= y
    decreases s
  {
    var z := OneOf(s);
    var less := set y | y in s && y < z;
    if less == {} {
      assert forall y :: y in s ==> y in less || z <= y;
    } else {
      assert z in s && z !in less;
      LeastExists(less);
      var x :| x in less && forall y :: y in less ==> x <= y;
      assert forall y :: y in s ==> y in less || z <= y;
    }
  }
}
