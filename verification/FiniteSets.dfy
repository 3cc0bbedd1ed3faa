/** Cardinalities that fall: what is left of a finite set when more of it has been used. */
module FiniteSets {

  lemma {:induction false} SubsetSize<T>(a: set<T>, b: set<T>)
    requires a <= b
    ensures |a| <= |b|
    decreases |a|
  {
    if a != {} {
      var x :| x in a;
      SubsetSize(a - {x}, b - {x});
    }
  }

  lemma OneFewer<T>(all: set<T>, some: set<T>, x: T)
    requires x in all && x !in some
    ensures |all - (some + {x})| < |all - some|
  {
    assert all - some == all - (some + {x}) + {x};
  }

  lemma NoMoreLeft<T>(all: set<T>, some: set<T>, more: set<T>)
    requires some <= more
    ensures |all - more| <= |all - some|
  {
    SubsetSize(all - more, all - some);
  }

  lemma {:induction false} SameSize<T>(a: set<T>, b: set<T>)
    requires a <= b && |a| == |b|
    ensures a == b
    decreases |a|
  {
    if x :| x in a {
      SameSize(a - {x}, b - {x});
      assert a == a - {x} + {x} && b == b - {x} + {x};
    } else {
      assert a == {};
    }
  }
}
