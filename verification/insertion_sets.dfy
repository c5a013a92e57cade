/**
 * JavaScript `Set`s of strings, modelled as sequences without duplicates in
 * insertion order (the order `Array.from` and iteration produce).
 */
module InsertionSets {
  import opened ByteStrings

  /** No element occurs twice. */
  predicate Distinct(xs: seq<Bytes>) {
    forall i, j :: 0 <= i < j < |xs| ==> xs[i] != xs[j]
  }

  /**
   * `new Set(xs)`: the elements of `xs` in order of first occurrence,
   * later duplicates dropped. Copying a set gives the same elements in the
   * same order.
   */
  function FromSeq(xs: seq<Bytes>): (r: seq<Bytes>)
    ensures Distinct(r)
    ensures forall x :: x in r <==> x in xs
    ensures |r| <= |xs|
    ensures Distinct(xs) ==> r == xs
  {
    if |xs| == 0 then []
    else
      var init := FromSeq(xs[..|xs| - 1]);
      var last := xs[|xs| - 1];
      assert forall x :: x in xs <==> x in xs[..|xs| - 1] || x == last;
      assert xs == xs[..|xs| - 1] + [last];
      if last in init then init else init + [last]
  }
}
