/** Picking an element of a non-empty set or a key of a non-empty map; the largest of a set of integers. */
module Sets {
  import opened Wrappers

  lemma PickElement<T>(s: set<T>) returns (x: T)
    requires s != {}
    ensures x in s
  {
    if forall y :: y !in s { assert false; }
    x :| x in s;
  }

  lemma PickKey<K, V>(m: map<K, V>) returns (k: K)
    requires |m| != 0
    ensures k in m
  {
    if forall j :: j !in m { assert false; }
    k :| k in m;
  }

  /** Some element of a non-empty set of integers, as a fact a function can use. */
  lemma SomeInt(s: set<int>)
    requires s != {}
    ensures exists x :: x in s
  {
    var x := PickElement(s);
  }

  /** `MAX(...)` over a set of integers: None for the empty set. */
  ghost function MaxOf(s: set<int>): (r: Option<int>)
    ensures r.None? <==> s == {}
    ensures r.Some? ==> r.value in s && forall x :: x in s ==> x <= r.value
    decreases |s|
  {
    if s == {} then None
    else
      SomeInt(s);
      var x :| x in s;
      var rest := MaxOf(s - {x});
      assert forall y :: y in s && y != x ==> y in s - {x};
      if rest.Some? && rest.value > x then rest else Some(x)
  }

  /** The maximum is the element every other element is at most. */
  lemma MaxOfIs(s: set<int>, v: int)
    requires v in s && forall x :: x in s ==> x <= v
    ensures MaxOf(s) == Some(v)
  {
  }
}
