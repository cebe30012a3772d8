/** Sums over finite sets, as SQL's sum() over groups. */
module Sums {

  ghost function Sum<T(!new)>(s: set<T>, f: T -> nat): nat {
    if s == {} then 0
    else
      var x :| x in s;
      f(x) + Sum(s - {x}, f)
  }

  lemma {:induction false} SumSame<T(!new)>(s: set<T>, f: T -> nat, g: T -> nat)
    requires forall x :: x in s ==> f(x) == g(x)
    ensures Sum(s, f) == Sum(s, g)
    decreases s
  {
    if s != {} {
      SumPick(s, f);
      var x :| x in s && Sum(s, f) == f(x) + Sum(s - {x}, f);
      SumOut(s, g, x);
      SumSame(s - {x}, f, g);
    }
  }

  lemma SumPick<T(!new)>(s: set<T>, f: T -> nat)
    requires s != {}
    ensures exists x :: x in s && Sum(s, f) == f(x) + Sum(s - {x}, f)
  {
  }

  /** Any element can be taken out first. */
  lemma {:induction false} SumOut<T(!new)>(s: set<T>, f: T -> nat, x: T)
    requires x in s
    ensures Sum(s, f) == f(x) + Sum(s - {x}, f)
    decreases s
  {
    SumPick(s, f);
    var y :| y in s && Sum(s, f) == f(y) + Sum(s - {y}, f);
    if y != x {
      SumOut(s - {y}, f, x);
      SumOut(s - {x}, f, y);
      assert s - {y} - {x} == s - {x} - {y};
    }
  }

  lemma {:induction false} SumPlus<T(!new)>(s: set<T>, f: T -> nat, g: T -> nat, h: T -> nat)
    requires forall x :: x in s ==> h(x) == f(x) + g(x)
    ensures Sum(s, h) == Sum(s, f) + Sum(s, g)
    decreases s
  {
    if s != {} {
      SumPick(s, f);
      var x :| x in s && Sum(s, f) == f(x) + Sum(s - {x}, f);
      SumOut(s, g, x);
      SumOut(s, h, x);
      SumPlus(s - {x}, f, g, h);
    }
  }

  lemma {:induction false} SumNothing<T(!new)>(s: set<T>, f: T -> nat)
    requires forall x :: x in s ==> f(x) == 0
    ensures Sum(s, f) == 0
    decreases s
  {
    if s != {} {
      SumPick(s, f);
      var x :| x in s && Sum(s, f) == f(x) + Sum(s - {x}, f);
      SumNothing(s - {x}, f);
    }
  }
}
