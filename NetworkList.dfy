/** The list of saved profile names `show_profiles` returns, and its two queries. */
module NetworkList {

  datatype WiFiNetworkList = WiFiNetworkList(profiles: seq<string>) {

    /** `is_empty` */
    predicate IsEmpty()
      ensures IsEmpty() <==> |profiles| == 0
    {
      profiles == []
    }

    /** `contains`: Python's `in` on a list, an equality search. */
    predicate Contains(name: string)
      ensures Contains(name) <==> exists i :: 0 <= i < |profiles| && profiles[i] == name
    {
      ContainsFrom(profiles, name)
    }
  }

  /** Python's `name in xs`, element by element from the front. */
  predicate ContainsFrom(xs: seq<string>, name: string)
    ensures ContainsFrom(xs, name) <==> exists i :: 0 <= i < |xs| && xs[i] == name
  {
    if xs == [] then false
    else if xs[0] == name then true
    else (assert forall i :: 1 <= i < |xs| ==> xs[i] == xs[1..][i - 1]; ContainsFrom(xs[1..], name))
  }

  /** An empty list contains no name. */
  lemma EmptyContainsNothing(l: WiFiNetworkList, name: string)
    requires l.IsEmpty()
    ensures !l.Contains(name)
  {
  }

  /** Membership in a listed concatenation is membership in one of the parts, so the list is a
      plain collection of names whatever the order `show_profiles` produced. */
  lemma ContainsAppend(a: seq<string>, b: seq<string>, name: string)
    ensures WiFiNetworkList(a + b).Contains(name) <==> WiFiNetworkList(a).Contains(name) || WiFiNetworkList(b).Contains(name)
  {
    var ab := a + b;
    if WiFiNetworkList(b).Contains(name) {
      var j :| 0 <= j < |b| && b[j] == name;
      assert ab[|a| + j] == name;
    }
    if WiFiNetworkList(a).Contains(name) {
      var j :| 0 <= j < |a| && a[j] == name;
      assert ab[j] == name;
    }
    if WiFiNetworkList(ab).Contains(name) {
      var j :| 0 <= j < |ab| && ab[j] == name;
      if j < |a| { assert a[j] == name; } else { assert b[j - |a|] == name; }
    }
  }
}
