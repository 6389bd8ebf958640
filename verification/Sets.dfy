/** Choosing an element of a finite set. */
module Sets {

  lemma EmptyIfNone<T(!new)>(s: set<T>)
    ensures (forall x :: x !in s) ==> s == {}
  {
  }

  ghost function Pick<T(!new)>(s: set<T>): (x: T)
    requires s != {}
    ensures x in s
  {
    EmptyIfNone(s);
    var x :| x in s;
    x
  }

  lemma {:induction false} SubsetOfSameSize<T(!new)>(s: set<T>, t: set<T>)
    requires s <= t && |s| == |t|
    ensures s == t
    decreases |s|
  {
    if s == {} {
      assert |t| == 0;
    } else {
      var x := Pick(s);
      SubsetOfSameSize(s - {x}, t - {x});
      assert s == (s - {x}) + {x} && t == (t - {x}) + {x};
    }
  }
}
