/** The scroll spy of the navigation bar (the `useScrollSpy` hook). On every
    scroll event it scans the page's sections in order, and the last one whose
    element exists and whose top edge is at most 120 pixels below the top of
    the viewport becomes the active section. */
module ScrollSpy {

  /** The page's sections, in the order the scan visits them. */
  const Sections: seq<string> :=
    ["about", "skills", "projects", "experience", "education", "certifications", "contact"]

  /** The active section at mount. */
  const Default: string := "about"

  /** How far below the top of the viewport (in pixels) a section's top edge
      may be for the section to count as in view. */
  const Threshold: real := 120.0

  /** The page as the scan sees it at one scroll event: for each id whose
      element exists, the top edge of its bounding box relative to the
      viewport. An id with no element is absent from the map. */
  type Layout = map<string, real>

  /** The test the scan applies to one id. */
  predicate InView(layout: Layout, id: string)
  {
    id in layout && layout[id] <= Threshold
  }

  /** Reference definition of the scan's result: the last of `ids` that is in
      view, or `prev` when none is. */
  function LastInView(ids: seq<string>, layout: Layout, prev: string): (r: string)
    ensures r == prev || r in ids
    ensures r != prev ==> InView(layout, r)
    decreases |ids|
  {
    if ids == [] then prev
    else if InView(layout, ids[|ids| - 1]) then ids[|ids| - 1]
    else LastInView(ids[..|ids| - 1], layout, prev)
  }

  /** When some id is in view, the result is the last such id: ids after it
      are not in view. */
  lemma {:induction false} LastInViewPicksLast(ids: seq<string>, layout: Layout, prev: string, k: nat)
    requires k < |ids| && InView(layout, ids[k])
    requires forall j :: k < j < |ids| ==> !InView(layout, ids[j])
    ensures LastInView(ids, layout, prev) == ids[k]
    decreases |ids|
  {
    if k < |ids| - 1 {
      var front := ids[..|ids| - 1];
      assert front[k] == ids[k];
      forall j | k < j < |front| ensures !InView(layout, front[j]) {
        assert front[j] == ids[j];
      }
      LastInViewPicksLast(front, layout, prev, k);
    }
  }

  /** When no id is in view (in particular when no element exists), the
      previous active section is kept. */
  lemma {:induction false} LastInViewKeepsPrevious(ids: seq<string>, layout: Layout, prev: string)
    requires forall j :: 0 <= j < |ids| ==> !InView(layout, ids[j])
    ensures LastInView(ids, layout, prev) == prev
    decreases |ids|
  {
    if ids != [] {
      var front := ids[..|ids| - 1];
      forall j | 0 <= j < |front| ensures !InView(layout, front[j]) {
        assert front[j] == ids[j];
      }
      LastInViewKeepsPrevious(front, layout, prev);
    }
  }

  /** The scroll handler's scan: start from the active section and let every
      section in view, in order, overwrite the candidate. */
  method Scan(active: string, layout: Layout) returns (current: string)
    ensures current == LastInView(Sections, layout, active)
  {
    current := active;
    for i := 0 to |Sections|
      invariant current == LastInView(Sections[..i], layout, active)
    {
      var id := Sections[i];
      if id in layout && layout[id] <= Threshold {
        current := id;
      }
      assert Sections[..i + 1][..i] == Sections[..i];
    }
    assert Sections[..|Sections|] == Sections;
  }

  /** The active section after a sequence of scroll events, from mount. */
  function ActiveAfter(events: seq<Layout>): (r: string)
    ensures r in Sections
    decreases |events|
  {
    if events == [] then Default
    else LastInView(Sections, events[|events| - 1], ActiveAfter(events[..|events| - 1]))
  }

  /** The hook's state: the active section id. */
  class Spy {
    var active: string

    predicate Valid()
      reads this
    {
      active in Sections
    }

    /** Mount: the first section is active. */
    constructor ()
      ensures Valid() && active == Default
    {
      active := Default;
    }

    /** One scroll event: scan the layout, then store the result. */
    method OnScroll(layout: Layout)
      requires Valid()
      modifies this
      ensures Valid()
      ensures active == LastInView(Sections, layout, old(active))
    {
      var current := Scan(active, layout);
      active := current;
    }
  }
}
