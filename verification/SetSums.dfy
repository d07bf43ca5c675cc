// Sums over finite sets.
module SetSums {
  ghost function Sum<T(!new)>(s: set<T>, f: T -> nat): nat
  {
    if s == {} then 0 else var x :| x in s; f(x) + Sum(s - {x}, f)
  }

  lemma {:induction false} SumRemove<T(!new)>(s: set<T>, f: T -> nat, x: T)
    requires x in s
    ensures Sum(s, f) == f(x) + Sum(s - {x}, f)
  {
    var y :| y in s && Sum(s, f) == f(y) + Sum(s - {y}, f);
    if y != x {
      SumRemove(s - {y}, f, x);
      SumRemove(s - {x}, f, y);
      assert s - {y} - {x} == s - {x} - {y};
    }
  }

  lemma SumInsert<T(!new)>(s: set<T>, f: T -> nat, x: T)
    ensures Sum(s + {x}, f) == Sum(s, f) + (if x in s then 0 else f(x))
  {
    if x in s {
      assert s + {x} == s;
    } else {
      SumRemove(s + {x}, f, x);
      assert s + {x} - {x} == s;
    }
  }

  lemma {:induction false} SumOffset<T(!new)>(s: set<T>, f: T -> nat, g: T -> nat, c: nat)
    requires forall x :: x in s ==> f(x) == c + g(x)
    ensures Sum(s, f) == c * |s| + Sum(s, g)
  {
    if s != {} {
      var x :| x in s;
      SumRemove(s, f, x);
      SumRemove(s, g, x);
      SumOffset(s - {x}, f, g, c);
    }
  }

  lemma {:induction false} SumSplit<T(!new)>(s: set<T>, part: set<T>, f: T -> nat)
    requires part <= s
    ensures Sum(s, f) == Sum(s - part, f) + Sum(part, f)
  {
    if part == {} {
      assert s - part == s;
    } else {
      var x :| x in part;
      SumRemove(s, f, x);
      SumRemove(part, f, x);
      SumSplit(s - {x}, part - {x}, f);
      assert s - {x} - (part - {x}) == s - part;
    }
  }
}
