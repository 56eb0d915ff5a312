/**
 * The scroll-spy hook: on each scroll the first section whose box holds the scroll position plus
 * the offset becomes the active one, or none at all, and the stored value is replaced only when it
 * differs from the one already held.
 */
module ScrollSpy {
  datatype Option<T> = None | Some(value: T)

  /** The part of an element the rule reads: `offsetTop` and `offsetHeight`. */
  datatype Box = Box(top: real, height: real)

  /** A tracked section: its id and its ref, whose `current` may still be null. */
  datatype Section = Section(id: string, element: Option<Box>)

  /** The hook's `offset` parameter; left out it is 100. */
  function OffsetOf(offset: Option<real>): real {
    if offset.Some? then offset.value else 100.0
  }

  predicate Holds(s: Section, position: real) {
    s.element.Some? && s.element.value.top <= position < s.element.value.top + s.element.value.height
  }

  /** The id of the first section holding the position, or the empty string when none holds it. */
  function ActiveAt(sections: seq<Section>, position: real): (r: string)
    ensures (forall k :: 0 <= k < |sections| ==> !Holds(sections[k], position)) ==> r == ""
    ensures forall k :: 0 <= k < |sections| && Holds(sections[k], position) && (forall j :: 0 <= j < k ==> !Holds(sections[j], position)) ==> r == sections[k].id
  {
    if sections == [] then ""
    else if Holds(sections[0], position) then sections[0].id
    else
      var rest := sections[1..];
      assert forall k :: 1 <= k < |sections| ==> sections[k] == rest[k - 1];
      ActiveAt(rest, position)
  }

  /** The first holding section, by index, if there is one. */
  function FirstHolding(sections: seq<Section>, position: real): (r: Option<nat>)
    ensures r.Some? ==>
      r.value < |sections| && Holds(sections[r.value], position)
      && forall k :: 0 <= k < r.value ==> !Holds(sections[k], position)
    ensures r.None? ==> forall k :: 0 <= k < |sections| ==> !Holds(sections[k], position)
  {
    if sections == [] then None
    else if Holds(sections[0], position) then Some(0)
    else
      var i := FirstHolding(sections[1..], position);
      if i.Some? then Some(i.value + 1) else None
  }

  /** Sections after the first holding one never decide. */
  lemma {:induction false} ActivePrefix(sections: seq<Section>, more: seq<Section>, position: real)
    requires FirstHolding(sections, position).Some?
    ensures ActiveAt(sections + more, position) == ActiveAt(sections, position)
  {
    if sections == [] {
    } else {
      assert (sections + more)[0] == sections[0] && (sections + more)[1..] == sections[1..] + more;
      if !Holds(sections[0], position) {
        ActivePrefix(sections[1..], more, position);
      }
    }
  }

  /** A section whose ref is still null is passed over, wherever it stands. */
  lemma {:induction false} NullIgnored(a: seq<Section>, id: string, b: seq<Section>, position: real)
    ensures ActiveAt(a + [Section(id, None)] + b, position) == ActiveAt(a + b, position)
  {
    var all := a + [Section(id, None)] + b;
    if a == [] {
      assert all[0] == Section(id, None) && all[1..] == b;
      assert a + b == b;
    } else {
      assert all[0] == a[0] && all[1..] == a[1..] + [Section(id, None)] + b;
      assert (a + b)[0] == a[0] && (a + b)[1..] == a[1..] + b;
      NullIgnored(a[1..], id, b, position);
    }
  }

  class Spy {
    var activeSection: string
    const offset: real

    /** `useState('')`, and the offset fixed when the hook is set up. */
    constructor(offsetParam: Option<real>)
      ensures activeSection == "" && offset == OffsetOf(offsetParam)
    {
      activeSection := "";
      offset := OffsetOf(offsetParam);
    }

    /**
     * `handleScroll`: scans the sections in order, skipping null refs, and stops at the first box
     * holding `scrollY + offset`. The state is set, and `updated` reported, only when the id changed.
     */
    method HandleScroll(scrollY: real, sections: seq<Section>) returns (updated: bool)
      modifies this
      ensures activeSection == ActiveAt(sections, scrollY + offset)
      ensures updated <==> old(activeSection) != ActiveAt(sections, scrollY + offset)
    {
      var scrollPosition := scrollY + offset;
      var currentSection := "";
      var i := 0;
      while i < |sections|
        invariant 0 <= i <= |sections|
        invariant currentSection == ""
        invariant forall j :: 0 <= j < i ==> !Holds(sections[j], scrollPosition)
      {
        var s := sections[i];
        if s.element.Some? {
          var elementTop := s.element.value.top;
          var elementHeight := s.element.value.height;
          if scrollPosition >= elementTop && scrollPosition < elementTop + elementHeight {
            currentSection := s.id;
            break;
          }
        }
        i := i + 1;
      }
      assert ActiveAt(sections, scrollPosition) == currentSection;
      updated := currentSection != activeSection;
      if updated {
        activeSection := currentSection;
      }
    }
  }
}
