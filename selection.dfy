/**
 * `Stream.max(comparator)` as the report queries use it: a left fold that
 * keeps the accumulated element unless the next one compares strictly
 * greater, so the first of several equal maxima wins.
 */
module Selection {

  /** The index `Stream.max` settles on when comparing by `keys`. */
  function FirstMax(keys: seq<int>): (r: nat)
    requires keys != []
    ensures r < |keys|
    ensures forall j :: 0 <= j < |keys| ==> keys[j] <= keys[r]
    ensures forall j :: 0 <= j < r ==> keys[j] < keys[r]
  {
    if |keys| == 1 then 0
    else
      var best := FirstMax(keys[..|keys| - 1]);
      if keys[|keys| - 1] > keys[best] then |keys| - 1 else best
  }

  /** `Stream.max` as a left fold: one more key replaces the maximum so far only when strictly greater. */
  lemma FirstMaxStep(keys: seq<int>, k: nat)
    requires 1 <= k < |keys|
    ensures FirstMax(keys[..k + 1]) ==
      if keys[k] > keys[FirstMax(keys[..k])] then k else FirstMax(keys[..k])
  {
    assert keys[..k + 1][..k] == keys[..k];
  }

  /** The first index holding the maximum is the only one with both properties of `FirstMax`. */
  lemma FirstMaxUnique(keys: seq<int>, i: nat)
    requires i < |keys|
    requires forall j :: 0 <= j < |keys| ==> keys[j] <= keys[i]
    requires forall j :: 0 <= j < i ==> keys[j] < keys[i]
    ensures FirstMax(keys) == i
  {
  }

  /** Of two equal maxima, the earlier one is kept. */
  lemma TieKeepsFirst()
    ensures FirstMax([3, 5, 5, 1]) == 1
  {
    FirstMaxUnique([3, 5, 5, 1], 1);
  }
}
