/** `xs.OrderByDescending(key).First()`: LINQ's sort is stable, so the
    element it returns is the first one, in input order, among those with
    the greatest key. The handlers use it to pick the main face (largest
    bounding box) and the dominant emotion (highest confidence). Keys are
    `float` in the source and real numbers here. */
module Selection {

  /** `k` is the position `OrderByDescending(key).First()` returns. */
  ghost predicate IsFirstMax<T>(xs: seq<T>, key: T -> real, k: nat) {
    && k < |xs|
    && (forall j :: 0 <= j < |xs| ==> key(xs[j]) <= key(xs[k]))
    && (forall j :: 0 <= j < k ==> key(xs[j]) < key(xs[k]))
  }

  /** A left-to-right scan that replaces the best so far only on a strictly
      greater key. */
  function FirstMaxIndex<T>(xs: seq<T>, key: T -> real): (k: nat)
    requires 0 < |xs|
    ensures k < |xs|
    ensures forall j :: 0 <= j < |xs| ==> key(xs[j]) <= key(xs[k])
    ensures forall j :: 0 <= j < k ==> key(xs[j]) < key(xs[k])
    decreases |xs|
  {
    if |xs| == 1 then 0
    else
      var k := FirstMaxIndex(xs[..|xs| - 1], key);
      if key(xs[k]) < key(xs[|xs| - 1]) then |xs| - 1 else k
  }

  /** Only one position is the first maximum, so the scan returns exactly
      the element the stable sort puts first. */
  lemma FirstMaxUnique<T>(xs: seq<T>, key: T -> real, k: nat)
    requires IsFirstMax(xs, key, k)
    ensures FirstMaxIndex(xs, key) == k
  {
    var m := FirstMaxIndex(xs, key);
    assert key(xs[m]) == key(xs[k]);
  }

  /** Among areas 10, 40, 40 the first 40 is chosen, never the 10. */
  lemma FirstOfEqualMaxima()
    ensures FirstMaxIndex([10.0, 40.0, 40.0], (x: real) => x) == 1
  {
    FirstMaxUnique([10.0, 40.0, 40.0], (x: real) => x, 1);
  }
}
