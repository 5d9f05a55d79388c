/** What an `IntersectionObserver` callback receives, with the geometry
    abstracted away: for each entry, the observed element (by its position
    in the document) and whether it now intersects the viewport. */
module Viewport {

  datatype Entry = Entry(target: nat, isIntersecting: bool)

  /** The elements an entry list reports as intersecting. */
  function Intersecting(entries: seq<Entry>): set<nat>
  {
    set e | e in entries && e.isIntersecting :: e.target
  }

  /** The intersecting elements in the order of the entries, once per
      intersecting entry. */
  function IntersectingTargets(entries: seq<Entry>): (r: seq<nat>)
    ensures |r| <= |entries|
    ensures forall n :: n in r <==> n in Intersecting(entries)
  {
    if entries == [] then []
    else
      var last := entries[|entries| - 1];
      var init := entries[..|entries| - 1];
      assert entries == init + [last];
      IntersectingTargets(init) + (if last.isIntersecting then [last.target] else [])
  }

  /** One entry contributes its target exactly when it intersects. */
  lemma IntersectingTargetsSingle(e: Entry)
    ensures IntersectingTargets([e]) == if e.isIntersecting then [e.target] else []
  {
    assert [e][..0] == [];
  }

  /** The targets of two consecutive batches are those of the first
      followed by those of the second: entry order is kept, and each
      intersecting entry contributes once. */
  lemma {:induction false} IntersectingTargetsAppend(a: seq<Entry>, b: seq<Entry>)
    ensures IntersectingTargets(a + b) == IntersectingTargets(a) + IntersectingTargets(b)
    decreases |b|
  {
    if b == [] {
      assert a + b == a;
    } else {
      var last := b[|b| - 1];
      var init := b[..|b| - 1];
      assert (a + b)[..|a + b| - 1] == a + init;
      assert (a + b)[|a + b| - 1] == last;
      IntersectingTargetsAppend(a, init);
    }
  }
}
