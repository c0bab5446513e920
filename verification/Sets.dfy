/** Sizes of finite sets. */
module Sets {

  lemma Subset<T>(a: set<T>, b: set<T>)
    requires a <= b
    ensures |a| <= |b|
    decreases b
  {
    if x :| x in a {
      Subset(a - {x}, b - {x});
      assert |a| == |a - {x}| + 1;
      assert |b| == |b - {x}| + 1;
    }
  }

  lemma AddOne<T>(s: set<T>, x: T)
    ensures |s + {x}| == if x in s then |s| else |s| + 1
  {
    if x in s {
      assert s + {x} == s;
    }
  }

  /** A subset one smaller than the whole misses exactly one element. */
  lemma OneGone<T>(part: set<T>, whole: set<T>, v: T)
    requires part <= whole && v in whole - part && |whole| <= |part| + 1
    ensures part == whole - {v}
  {
    forall x | x in whole - {v}
      ensures x in part
    {
      if x !in part {
        assert |whole - {v}| == |whole| - 1;
        assert |whole - {v} - {x}| == |whole| - 2;
        Subset(part, whole - {v} - {x});
        assert false;
      }
    }
  }

  /** Sets on either side of `m` have nothing in common. */
  lemma SizeOfUnion(a: set<int>, b: set<int>, m: int)
    requires forall x | x in a :: x < m
    requires forall x | x in b :: m <= x
    ensures |a + b| == |a| + |b|
  {
    forall x | x in a
      ensures x !in b
    {
    }
    assert a !! b;
    assert |a + b| == |a| + |b| - |a * b|;
  }
}
