/** The largest element of a finite set of integers. */
module IntSets {
  lemma HasElement(s: set<int>)
    requires s != {}
    ensures exists y :: y in s
  {
    if forall y :: y !in s {
      assert false;
    }
  }

  /** The largest element of a non-empty set. */
  ghost function MaxOf(s: set<int>): (m: int)
    requires s != {}
    ensures m in s && forall y | y in s :: y <= m
    decreases |s|
  {
    HasElement(s);
    var x :| x in s;
    assert |s - {x}| == |s| - 1;
    if s - {x} == {} then (assert s == {x}; x)
    else
      var rest := MaxOf(s - {x});
      if x > rest then x else rest
  }
}
