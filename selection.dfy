/**
  Keeping the elements of a sequence that pass a test and transforming each
  kept one, in order: what a loop that appends to a list for every accepted
  item builds. The lemmas tie each output element to the one input position it
  came from.
 */
module Selection {

  /** The images under `f` of the elements of `s` that pass `p`, in order. */
  function FilterMap<T, U>(s: seq<T>, p: T -> bool, f: T -> U): (r: seq<U>)
    ensures |r| <= |s|
  {
    if s == [] then []
    else
      var init := FilterMap(s[..|s| - 1], p, f);
      if p(s[|s| - 1]) then init + [f(s[|s| - 1])] else init
  }

  /** The positions of the elements of `s` that pass `p`, increasing. */
  function Positions<T>(s: seq<T>, p: T -> bool): (ps: seq<nat>)
    ensures forall k :: 0 <= k < |ps| ==> ps[k] < |s| && p(s[ps[k]])
    ensures forall k, m :: 0 <= k < m < |ps| ==> ps[k] < ps[m]
    ensures forall j :: 0 <= j < |s| && p(s[j]) ==> j in ps
  {
    if s == [] then []
    else
      var n := |s| - 1;
      var init := Positions(s[..n], p);
      assert forall j :: 0 <= j < n ==> s[..n][j] == s[j];
      if p(s[n]) then
        var ps := init + [n];
        assert forall k :: 0 <= k < |init| ==> ps[k] == init[k];
        ps
      else init
  }

  /** Output element k is the image of the input element at the k-th passing position. */
  lemma {:induction false} FilterMapAtPositions<T, U>(s: seq<T>, p: T -> bool, f: T -> U)
    ensures var ps := Positions(s, p);
      |FilterMap(s, p, f)| == |ps| &&
      forall k :: 0 <= k < |ps| ==> FilterMap(s, p, f)[k] == f(s[ps[k]])
  {
    if s != [] {
      var n := |s| - 1;
      var prefix := s[..n];
      FilterMapAtPositions(prefix, p, f);
      var init, out := Positions(prefix, p), FilterMap(prefix, p, f);
      var morePs: seq<nat> := if p(s[n]) then [n] else [];
      var moreOut := if p(s[n]) then [f(s[n])] else [];
      assert Positions(s, p) == init + morePs;
      assert FilterMap(s, p, f) == out + moreOut;
      forall k | 0 <= k < |init| + |morePs| ensures (out + moreOut)[k] == f(s[(init + morePs)[k]]) {
        if k < |init| {
          assert prefix[init[k]] == s[init[k]];
        }
      }
    }
  }

  /** An element is in the output exactly when it is the image of some passing input element. */
  lemma {:induction false} FilterMapMembers<T, U>(s: seq<T>, p: T -> bool, f: T -> U, y: U)
    ensures y in FilterMap(s, p, f) <==> exists j :: 0 <= j < |s| && p(s[j]) && y == f(s[j])
  {
    FilterMapAtPositions(s, p, f);
    var ps := Positions(s, p);
    var out := FilterMap(s, p, f);
    if y in out {
      var k :| 0 <= k < |out| && out[k] == y;
      assert p(s[ps[k]]) && y == f(s[ps[k]]);
    }
    if j :| 0 <= j < |s| && p(s[j]) && y == f(s[j]) {
      var k :| 0 <= k < |ps| && ps[k] == j;
      assert out[k] == y;
    }
  }
}
