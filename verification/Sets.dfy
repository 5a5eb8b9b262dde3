/** Sizes of finite sets. */
module Sets {

  /** What moving one element in or out does to the size of a set. */
  lemma Recount<T>(s: set<T>, s': set<T>, t: T)
    requires forall u :: u != t ==> (u in s <==> u in s')
    ensures |s'| == |s| - (if t in s then 1 else 0) + if t in s' then 1 else 0
  {
    var others := s - {t};
    assert s == if t in s then others + {t} else others;
    assert s' == if t in s' then others + {t} else others;
  }

  lemma {:induction false} Subset<T>(a: set<T>, b: set<T>)
    requires a <= b
    ensures |a| <= |b|
  {
    if a != {} {
      var x :| x in a;
      Subset(a - {x}, b - {x});
    }
  }

  lemma SameSize<T>(a: set<T>, b: set<T>)
    requires a <= b && |a| == |b|
    ensures a == b
  {
    assert b == a + (b - a) && |b| == |a| + |b - a|;
  }
}
