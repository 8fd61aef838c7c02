/** The least and greatest element of a finite set of day numbers: the
    MIN and MAX aggregates behind the repository's date queries. */
module OrderedKeys {

  /** A non-empty set has an element. */
  lemma HasElement(ks: set<int>)
    requires ks != {}
    ensures exists x :: x in ks
  {
    if forall k :: k !in ks {
      assert false;
    }
  }

  ghost function Least(ks: set<int>): (m: int)
    requires ks != {}
    ensures m in ks
    ensures forall k :: k in ks ==> m <= k
    decreases ks
  {
    HasElement(ks);
    var x :| x in ks;
    var others := ks - {x};
    assert forall k :: k in ks ==> k in others || k == x;
    if others == {} then x
    else
      var rest := Least(others);
      if x <= rest then x else rest
  }

  ghost function Greatest(ks: set<int>): (m: int)
    requires ks != {}
    ensures m in ks
    ensures forall k :: k in ks ==> k <= m
    decreases ks
  {
    HasElement(ks);
    var x :| x in ks;
    var others := ks - {x};
    assert forall k :: k in ks ==> k in others || k == x;
    if others == {} then x
    else
      var rest := Greatest(others);
      if rest <= x then x else rest
  }
}
