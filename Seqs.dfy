/** Sequence helpers shared by the line scanners: mapping a reader over lines, keeping the
    present results, and taking the first present one. */
module Seqs {
  import opened Wrappers

  /** `[f(x) for x in xs]` */
  function MapSeq<A, B>(f: A -> B, xs: seq<A>): (ys: seq<B>)
    ensures |ys| == |xs| && forall i :: 0 <= i < |xs| ==> ys[i] == f(xs[i])
  {
    seq(|xs|, i requires 0 <= i < |xs| => f(xs[i]))
  }

  /** Mapping a concatenation maps its parts. */
  lemma MapAppend<A, B>(f: A -> B, a: seq<A>, b: seq<A>)
    ensures MapSeq(f, a + b) == MapSeq(f, a) + MapSeq(f, b)
  {
    var l, r := MapSeq(f, a + b), MapSeq(f, a) + MapSeq(f, b);
    forall i | 0 <= i < |l|
      ensures l[i] == r[i]
    {
      if i < |a| { assert (a + b)[i] == a[i]; } else { assert (a + b)[i] == b[i - |a|]; }
    }
  }

  /** The present values, in order. */
  function Somes<T>(vs: seq<Option<T>>): seq<T>
  {
    if vs == [] then []
    else Somes(vs[..|vs| - 1]) + (if vs[|vs| - 1].Some? then [vs[|vs| - 1].value] else [])
  }

  /** The present values of consecutive blocks come out block after block. */
  lemma {:induction false} SomesAppend<T>(a: seq<Option<T>>, b: seq<Option<T>>)
    ensures Somes(a + b) == Somes(a) + Somes(b)
    decreases |b|
  {
    if b == [] {
      assert a + b == a;
    } else {
      var n := |b| - 1;
      assert (a + b)[..|a + b| - 1] == a + b[..n];
      SomesAppend(a, b[..n]);
    }
  }

  /** A value is kept exactly when some entry holds it. */
  lemma {:induction false} SomesMembers<T>(vs: seq<Option<T>>, v: T)
    ensures v in Somes(vs) <==> exists i :: 0 <= i < |vs| && vs[i] == Some(v)
  {
    if vs != [] {
      var n := |vs| - 1;
      SomesMembers(vs[..n], v);
      assert forall i :: 0 <= i < n ==> vs[..n][i] == vs[i];
    }
  }

  /** The first present value. */
  function FirstSome<T>(vs: seq<Option<T>>): Option<T>
  {
    if vs == [] then None else if vs[0].Some? then vs[0] else FirstSome(vs[1..])
  }

  /** The first present value: `None` exactly when every value is missing, and otherwise the
      value at the first index that has one. */
  lemma {:induction false} FirstSomeIsFirst<T>(vs: seq<Option<T>>)
    ensures FirstSome(vs).None? <==> forall i :: 0 <= i < |vs| ==> vs[i].None?
    ensures FirstSome(vs).Some? ==>
            exists i :: 0 <= i < |vs| && vs[i] == FirstSome(vs) && forall j :: 0 <= j < i ==> vs[j].None?
  {
    if vs != [] {
      FirstSomeIsFirst(vs[1..]);
      assert forall i :: 1 <= i < |vs| ==> vs[1..][i - 1] == vs[i];
      if vs[0].None? && FirstSome(vs).Some? {
        var i :| 0 <= i < |vs| - 1 && vs[1..][i] == FirstSome(vs) &&
                 forall j :: 0 <= j < i ==> vs[1..][j].None?;
        assert vs[i + 1] == FirstSome(vs);
      }
    }
  }
}
