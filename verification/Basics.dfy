/** An optional value and facts about collections that several models need. */
module Basics {

  datatype Option<+T> = None | Some(value: T)

  lemma NonEmpty<T(!new)>(s: set<T>)
    ensures s == {} || exists x :: x in s
  {
    assert (forall x :: x !in s) ==> s == {};
  }

  lemma HasFirst<T>(s: seq<T>)
    ensures s == [] || s[0] in s
  {
  }

  lemma SameMembers<T>(a: seq<T>, b: seq<T>)
    requires multiset(a) == multiset(b)
    ensures forall x :: x in a <==> x in b
  {
    assert forall x :: x in a <==> x in multiset(a);
    assert forall x :: x in b <==> x in multiset(b);
  }

  lemma SameSize<T>(a: seq<T>, b: seq<T>)
    requires multiset(a) == multiset(b)
    ensures |a| == |b|
  {
    assert |multiset(a)| == |a| && |multiset(b)| == |b|;
  }

  lemma Associate<T>(a: seq<T>, b: seq<T>, c: seq<T>)
    ensures a + (b + c) == (a + b) + c
  {
  }

  /** out is the elements of s at the increasing positions js. */
  ghost predicate Picks<T(!new)>(s: seq<T>, js: seq<nat>, out: seq<T>) {
    && |out| == |js|
    && (forall k :: 0 <= k < |js| ==> js[k] < |s| && out[k] == s[js[k]])
    && forall k, l :: 0 <= k < l < |js| ==> js[k] < js[l]
  }

  lemma PickOneMore<T(!new)>(s: seq<T>, js: seq<nat>, out: seq<T>, x: T)
    requires Picks(s, js, out)
    ensures Picks(s + [x], js, out + []) && Picks(s + [x], js + [|s|], out + [x])
  {
  }

  lemma PickSize<T(!new)>(s: seq<T>, js: seq<nat>, out: seq<T>)
    requires Picks(s, js, out)
    ensures |js| == |out|
  {
  }
}
