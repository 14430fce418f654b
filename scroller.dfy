/** The page's section navigator: one integer of state, the current section,
    and the "active" flags of the section indicators and nav links that mirror
    it. The list of section elements is fixed after load, but their geometry
    and their animatable children are read afresh on every call, so each
    re-sync takes them as a value; scrolling the page itself is left to the
    browser. */
module Scroller {
  import opened Navigation
  import opened Input

  class PortfolioScroller {
    /** The index of the section being shown. */
    var currentSection: int
    /** The number of section elements, fixed after load. */
    const totalSections: nat
    /** The "active" class of each section indicator. */
    const indicators: array<bool>
    /** The "active" class of each nav link. */
    const navLinks: array<bool>
    /** The deferred entrance-animation tasks scheduled so far, oldest first. */
    var animations: seq<Task>

    ghost predicate Valid()
      reads this
    {
      && indicators != navLinks
      && ValidIndex(currentSection, totalSections)
    }

    /** Exactly the indicator and the nav link at index k are active. */
    ghost predicate Mirrors(k: int)
      reads this, indicators, navLinks
    {
      && (forall j :: 0 <= j < indicators.Length ==> indicators[j] == (j == k))
      && (forall j :: 0 <= j < navLinks.Length ==> navLinks[j] == (j == k))
    }

    /** The page-load constructor: index 0, the flags as the markup sets them,
        then one re-sync from the initial scroll position and the geometry
        the sections have at that moment. */
    constructor (geom: seq<Section>, indicatorFlags: seq<bool>, linkFlags: seq<bool>, v: Viewport)
      ensures Valid() && fresh(indicators) && fresh(navLinks)
      ensures totalSections == |geom|
      ensures currentSection == SyncedAfter(geom, v, 0, |geom|)
      ensures Transitions(geom, v, 0, |geom|) != [] ==> Mirrors(currentSection)
      ensures Transitions(geom, v, 0, |geom|) == [] ==>
                indicators[..] == indicatorFlags && navLinks[..] == linkFlags
      ensures animations == TasksFor(geom, Transitions(geom, v, 0, |geom|))
    {
      currentSection := 0;
      totalSections := |geom|;
      indicators := new bool[|indicatorFlags|](i requires 0 <= i < |indicatorFlags| => indicatorFlags[i]);
      navLinks := new bool[|linkFlags|](i requires 0 <= i < |linkFlags| => linkFlags[i]);
      animations := [];
      new;
      assert indicators[..] == indicatorFlags && navLinks[..] == linkFlags;
      UpdateActiveSection(v, geom);
    }

    /** updateActiveStates: mark the indicator and the nav link at k, clear the rest. */
    method UpdateActiveStates(k: int)
      requires indicators != navLinks
      modifies indicators, navLinks
      ensures Mirrors(k)
    {
      for j := 0 to indicators.Length
        invariant forall i :: 0 <= i < j ==> indicators[i] == (i == k)
      {
        indicators[j] := j == k;
      }
      for j := 0 to navLinks.Length
        invariant forall i :: 0 <= i < j ==> navLinks[i] == (i == k)
        invariant forall i :: 0 <= i < indicators.Length ==> indicators[i] == (i == k)
      {
        navLinks[j] := j == k;
      }
    }

    /** scrollToSection: an in-range index becomes current and is mirrored by
        the flags; any other request changes nothing. */
    method ScrollToSection(k: int)
      requires Valid()
      modifies this`currentSection, indicators, navLinks
      ensures Valid()
      ensures InRange(k, totalSections) ==> currentSection == k && Mirrors(k)
      ensures !InRange(k, totalSections) ==>
                currentSection == old(currentSection) && unchanged(indicators, navLinks)
    {
      if k < 0 || k >= totalSections {
        return;
      }
      currentSection := k;
      UpdateActiveStates(k);
    }

    /** scrollToNextSection: one step forward; at the last section nothing at all. */
    method ScrollToNextSection()
      requires Valid()
      modifies this`currentSection, indicators, navLinks
      ensures Valid()
      ensures currentSection == NextTarget(old(currentSection), totalSections)
      ensures currentSection != old(currentSection) ==> Mirrors(currentSection)
      ensures currentSection == old(currentSection) ==> unchanged(indicators, navLinks)
    {
      var nextIndex := Min(currentSection + 1, totalSections - 1);
      if nextIndex != currentSection {
        ScrollToSection(nextIndex);
      }
    }

    /** scrollToPrevSection: one step backward; at section 0 nothing at all. */
    method ScrollToPrevSection()
      requires Valid()
      modifies this`currentSection, indicators, navLinks
      ensures Valid()
      ensures currentSection == PrevTarget(old(currentSection), totalSections)
      ensures currentSection != old(currentSection) ==> Mirrors(currentSection)
      ensures currentSection == old(currentSection) ==> unchanged(indicators, navLinks)
    {
      var prevIndex := Max(currentSection - 1, 0);
      if prevIndex != currentSection {
        ScrollToSection(prevIndex);
      }
    }

    /** triggerSectionAnimations: one staggered restore task per animatable
        child; `count` is the number of such children section k has now. */
    method TriggerSectionAnimations(k: int, count: nat)
      requires Valid() && InRange(k, totalSections)
      modifies this`animations
      ensures animations == old(animations) + EntranceTasks(k, count)
    {
      for e := 0 to count
        invariant animations == old(animations) + EntranceTasks(k, e)
      {
        assert EntranceTasks(k, e + 1) == EntranceTasks(k, e) + [Task(k, e, StaggerDelay(e))];
        animations := animations + [Task(k, e, e * 100 + 200)];
      }
    }

    /** The forEach callback of updateActiveSection for section i: when its
        span contains the midpoint and it is not already current, it becomes
        current, the flags follow it and its entrance animation is replayed. */
    method SyncWithSection(i: int, v: Viewport, geom: seq<Section>)
      requires Valid() && InRange(i, totalSections) && |geom| == totalSections
      modifies this`currentSection, this`animations, indicators, navLinks
      ensures Valid()
      ensures currentSection == if Contains(geom[i], v) then i else old(currentSection)
      ensures Contains(geom[i], v) && old(currentSection) != i ==>
                Mirrors(i) && animations == old(animations) + EntranceTasks(i, geom[i].animated)
      ensures !(Contains(geom[i], v) && old(currentSection) != i) ==>
                unchanged(indicators, navLinks) && animations == old(animations)
    {
      if Contains(geom[i], v) {
        if currentSection != i {
          currentSection := i;
          UpdateActiveStates(i);
          TriggerSectionAnimations(i, geom[i].animated);
        }
      }
    }

    /** updateActiveSection: every section whose span contains the viewport
        midpoint, visited in order, becomes current unless it already is; each
        such change refreshes the flags and replays that section's entrance. */
    method UpdateActiveSection(v: Viewport, geom: seq<Section>)
      requires Valid() && |geom| == totalSections
      modifies this`currentSection, this`animations, indicators, navLinks
      ensures Valid()
      ensures currentSection == SyncedAfter(geom, v, old(currentSection), totalSections)
      ensures Transitions(geom, v, old(currentSection), totalSections) != [] ==> Mirrors(currentSection)
      ensures Transitions(geom, v, old(currentSection), totalSections) == [] ==> unchanged(indicators, navLinks)
      ensures animations == old(animations) + TasksFor(geom, Transitions(geom, v, old(currentSection), totalSections))
    {
      ghost var start := currentSection;
      ghost var scheduled := animations;
      ghost var changes: seq<int> := [];
      for i := 0 to |geom|
        invariant Valid()
        invariant currentSection == SyncedAfter(geom, v, start, i)
        invariant changes == Transitions(geom, v, start, i)
        invariant changes != [] ==> Mirrors(currentSection)
        invariant changes == [] ==> unchanged(indicators, navLinks)
        invariant animations == scheduled + TasksFor(geom, changes)
      {
        changes := SyncStep(i, v, geom, start, scheduled, changes);
      }
    }

    /** One iteration of updateActiveSection's loop, carried from the state
        after sections 0 .. i-1 to the state after sections 0 .. i. */
    method SyncStep(i: int, v: Viewport, geom: seq<Section>, ghost start: int, ghost scheduled: seq<Task>, ghost changes: seq<int>)
      returns (ghost changes': seq<int>)
      requires Valid() && InRange(i, totalSections) && |geom| == totalSections
      requires currentSection == SyncedAfter(geom, v, start, i)
      requires changes == Transitions(geom, v, start, i)
      requires changes != [] ==> Mirrors(currentSection)
      requires animations == scheduled + TasksFor(geom, changes)
      modifies this`currentSection, this`animations, indicators, navLinks
      ensures Valid()
      ensures currentSection == SyncedAfter(geom, v, start, i + 1)
      ensures changes' == Transitions(geom, v, start, i + 1)
      ensures changes' != [] ==> Mirrors(currentSection)
      ensures changes' == changes ==> unchanged(indicators, navLinks)
      ensures animations == scheduled + TasksFor(geom, changes')
    {
      if Contains(geom[i], v) && currentSection != i {
        TasksForSnoc(geom, changes, i);
        AppendAssoc(scheduled, TasksFor(geom, changes), EntranceTasks(i, geom[i].animated));
        SyncWithSection(i, v, geom);
        changes' := changes + [i];
      } else {
        SyncWithSection(i, v, geom);
        changes' := changes;
      }
    }

    /** The settled wheel callback. */
    method OnWheel(deltaY: int)
      requires Valid()
      modifies this`currentSection, indicators, navLinks
      ensures Valid()
      ensures currentSection == Target(old(currentSection), totalSections, WheelAction(deltaY))
      ensures Refreshes(old(currentSection), totalSections, WheelAction(deltaY)) ==> Mirrors(currentSection)
      ensures !Refreshes(old(currentSection), totalSections, WheelAction(deltaY)) ==> unchanged(indicators, navLinks)
    {
      StepRefreshesIffMoves(currentSection, totalSections, WheelAction(deltaY));
      if deltaY > 0 {
        ScrollToNextSection();
      } else {
        ScrollToPrevSection();
      }
    }

    /** The keydown callback: its three tests run one after the other. */
    method OnKeyDown(key: string)
      requires Valid()
      modifies this`currentSection, indicators, navLinks
      ensures Valid()
      ensures currentSection == Target(old(currentSection), totalSections, KeyAction(key))
      ensures Refreshes(old(currentSection), totalSections, KeyAction(key)) ==> Mirrors(currentSection)
      ensures !Refreshes(old(currentSection), totalSections, KeyAction(key)) ==> unchanged(indicators, navLinks)
    {
      KeyTestsExclusive(key);
      StepRefreshesIffMoves(currentSection, totalSections, KeyAction(key));
      if IsNextKey(key) {
        ScrollToNextSection();
      }
      if IsPrevKey(key) {
        ScrollToPrevSection();
      }
      if IsDigitKey(key) {
        ScrollToSection(ParseLeadingInt(key) - 1);
      }
    }

    /** The touchend callback, given where the touch started and ended. */
    method OnTouchEnd(startY: int, endY: int)
      requires Valid()
      modifies this`currentSection, indicators, navLinks
      ensures Valid()
      ensures currentSection == Target(old(currentSection), totalSections, SwipeAction(startY, endY))
      ensures Refreshes(old(currentSection), totalSections, SwipeAction(startY, endY)) ==> Mirrors(currentSection)
      ensures !Refreshes(old(currentSection), totalSections, SwipeAction(startY, endY)) ==> unchanged(indicators, navLinks)
    {
      StepRefreshesIffMoves(currentSection, totalSections, SwipeAction(startY, endY));
      var deltaY := endY - startY;
      if Abs(deltaY) > SwipeThreshold {
        if deltaY > 0 {
          ScrollToPrevSection();
        } else {
          ScrollToNextSection();
        }
      }
    }
  }
}
