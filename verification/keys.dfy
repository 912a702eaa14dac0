/**
 * The order in which the database hands out the children of a node whose
 * keys are all integers: ascending numeric order.
 */
module Keys {

  /** A key set holding `x` has a least element; descends from `x` to any smaller key. */
  lemma {:induction false} MinExists(s: set<nat>, x: nat)
    requires x in s
    ensures exists m :: m in s && forall y :: y in s ==> m <= y
    decreases x
  {
    if exists y :: y in s && y < x {
      var y :| y in s && y < x;
      MinExists(s, y);
    }
  }

  /** The least key of a non-empty key set. */
  function Min(s: set<nat>): (m: nat)
    requires s != {}
    ensures m in s && forall y :: y in s ==> m <= y
  {
    var x :| x in s;
    MinExists(s, x);
    var m :| m in s && forall y :: y in s ==> m <= y;
    m
  }

  /** The keys of `s` in ascending order, each once. */
  function SortedKeys(s: set<nat>): (r: seq<nat>)
    ensures |r| == |s|
    ensures forall i, j :: 0 <= i < j < |r| ==> r[i] < r[j]
    ensures forall i :: 0 <= i < |r| ==> r[i] in s
    ensures forall k :: k in s ==> k in r
    decreases |s|
  {
    if s == {} then []
    else
      var m := Min(s);
      var rest := SortedKeys(s - {m});
      [m] + rest
  }
}
