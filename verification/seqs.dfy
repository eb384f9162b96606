/**
 Order-preserving filter-map over sequences: the shape of Rust's
 `iter().filter(..).map(..).collect()` and `iter().filter_map(..).collect()`.
 */
module Seqs {
  import opened Wrappers

  /** The positions of `s` whose element `f` keeps. */
  function KeptIndices<A, B>(s: seq<A>, f: A -> Option<B>): set<nat>
  {
    set i: nat | i < |s| && f(s[i]).Some?
  }

  /** Dropping the last element keeps the other positions and their kept status. */
  lemma KeptIndicesSnoc<A, B>(s: seq<A>, f: A -> Option<B>)
    requires |s| > 0
    ensures forall i :: 0 <= i < |s| - 1 ==> s[..|s| - 1][i] == s[i]
    ensures |s| - 1 !in KeptIndices(s[..|s| - 1], f)
    ensures KeptIndices(s, f)
            == KeptIndices(s[..|s| - 1], f) + (if f(s[|s| - 1]).Some? then {|s| - 1} else {})
  {
    var init := s[..|s| - 1];
    assert forall i :: 0 <= i < |init| ==> init[i] == s[i];
  }

  /** Keeps, in order, the values `f` produces for the elements of `s`. */
  function FilterMap<A, B>(s: seq<A>, f: A -> Option<B>): (r: seq<B>)
    ensures |r| <= |s|
    ensures |r| == |KeptIndices(s, f)|
    ensures forall k :: 0 <= k < |r| ==> exists i :: 0 <= i < |s| && f(s[i]) == Some(r[k])
    ensures forall i :: 0 <= i < |s| && f(s[i]).Some? ==> f(s[i]).value in r
  {
    if |s| == 0 then []
    else
      var init := s[..|s| - 1];
      var rest := FilterMap(init, f);
      KeptIndicesSnoc(s, f);
      match f(s[|s| - 1])
      case None => rest
      case Some(b) => rest + [b]
  }

  /** Filtering distributes over concatenation, so it keeps the order of `s`. */
  lemma {:induction false} FilterMapAppend<A, B>(a: seq<A>, b: seq<A>, f: A -> Option<B>)
    ensures FilterMap(a + b, f) == FilterMap(a, f) + FilterMap(b, f)
    decreases |b|
  {
    if |b| == 0 {
      assert a + b == a;
    } else {
      var b' := b[..|b| - 1];
      assert (a + b)[..|a + b| - 1] == a + b';
      assert (a + b)[|a + b| - 1] == b[|b| - 1];
      FilterMapAppend(a, b', f);
    }
  }
}
