/** The section-navigation state machine of the portfolio page, stated on
    values: where each navigation request leaves the current section index,
    what a re-sync from the scroll position computes, and which entrance
    animation tasks a newly activated section schedules. The class
    PortfolioScroller (module Scroller) is specified against these functions. */
module Navigation {

  /** One full-viewport region of the page: its offsetTop, its offsetHeight,
      and how many animatable children (skill items, project cards, contact
      items, education cards) it holds. */
  datatype Section = Section(top: int, height: int, animated: nat)

  /** The viewport as the scroll handler reads it. */
  datatype Viewport = Viewport(scrollY: int, innerHeight: int)

  /** A navigation request, as the input handlers issue it. */
  datatype Nav = Next | Prev | Jump(index: int) | Stay

  /** One deferred style restore scheduled by an entrance animation: the
      element-th animatable child of a section becomes visible after delay ms. */
  datatype Task = Task(section: nat, element: nat, delay: nat)

  /** The navigator's state invariant: an index into the sections, or the
      initial 0 when the page has no sections at all. */
  predicate ValidIndex(cur: int, total: nat) {
    0 <= cur && (cur < total || cur == 0)
  }

  predicate InRange(k: int, total: nat) {
    0 <= k < total
  }

  function Min(a: int, b: int): int { if a <= b then a else b }

  function Max(a: int, b: int): int { if a >= b then a else b }

  // ---------------------------------------------------------------------
  // Jumps and steps
  // ---------------------------------------------------------------------

  /** scrollToSection: an out-of-range request is ignored. */
  function JumpTarget(cur: int, total: nat, k: int): int {
    if k < 0 || k >= total then cur else k
  }

  /** scrollToNextSection: the step target is min(cur + 1, total - 1), and it
      is taken only when it differs from the current index. */
  function NextTarget(cur: int, total: nat): (r: int)
    ensures ValidIndex(cur, total) ==> ValidIndex(r, total)
    ensures ValidIndex(cur, total) ==> r == (if cur + 1 < total then cur + 1 else cur)
  {
    var next := Min(cur + 1, total - 1);
    if next != cur then JumpTarget(cur, total, next) else cur
  }

  /** scrollToPrevSection: the step target is max(cur - 1, 0), and it is taken
      only when it differs from the current index. */
  function PrevTarget(cur: int, total: nat): (r: int)
    ensures ValidIndex(cur, total) ==> ValidIndex(r, total)
    ensures ValidIndex(cur, total) ==> r == (if cur > 0 then cur - 1 else cur)
  {
    var prev := Max(cur - 1, 0);
    if prev != cur then JumpTarget(cur, total, prev) else cur
  }

  /** The index after one navigation request. */
  function Target(cur: int, total: nat, nav: Nav): int {
    match nav
    case Next => NextTarget(cur, total)
    case Prev => PrevTarget(cur, total)
    case Jump(k) => JumpTarget(cur, total, k)
    case Stay => cur
  }

  /** Whether the request reaches scrollToSection with an in-range index, and
      so rewrites the indicator and nav-link flags. */
  predicate Refreshes(cur: int, total: nat, nav: Nav) {
    match nav
    case Next => Min(cur + 1, total - 1) != cur && InRange(Min(cur + 1, total - 1), total)
    case Prev => Max(cur - 1, 0) != cur && InRange(Max(cur - 1, 0), total)
    case Jump(k) => InRange(k, total)
    case Stay => false
  }

  /** Every navigation request keeps the index valid. */
  lemma TargetKeepsValid(cur: int, total: nat, nav: Nav)
    requires ValidIndex(cur, total)
    ensures ValidIndex(Target(cur, total, nav), total)
  {
  }

  /** A request that is not an in-range jump refreshes the flags exactly when
      it moves the index: a step past either end does nothing at all. */
  lemma StepRefreshesIffMoves(cur: int, total: nat, nav: Nav)
    requires ValidIndex(cur, total)
    ensures !nav.Jump? ==> (Refreshes(cur, total, nav) <==> Target(cur, total, nav) != cur)
  {
  }

  /** n steps forward from a valid index. */
  function NextSteps(cur: int, total: nat, n: nat): int {
    if n == 0 then cur else NextTarget(NextSteps(cur, total, n - 1), total)
  }

  /** n steps backward from a valid index. */
  function PrevSteps(cur: int, total: nat, n: nat): int {
    if n == 0 then cur else PrevTarget(PrevSteps(cur, total, n - 1), total)
  }

  /** Repeated forward steps clamp at the last section. */
  lemma {:induction false} NextStepsClamp(cur: int, total: nat, n: nat)
    requires ValidIndex(cur, total) && total > 0
    ensures NextSteps(cur, total, n) == Min(cur + n, total - 1)
  {
    if n > 0 {
      NextStepsClamp(cur, total, n - 1);
    }
  }

  /** Repeated backward steps clamp at section 0. */
  lemma {:induction false} PrevStepsClamp(cur: int, total: nat, n: nat)
    requires ValidIndex(cur, total)
    ensures PrevSteps(cur, total, n) == Max(cur - n, 0)
  {
    if n > 0 {
      PrevStepsClamp(cur, total, n - 1);
    }
  }

  /** Five sections, starting at 0: four steps reach the last section and a
      fifth leaves it there. */
  lemma FiveSectionsScenario()
    ensures NextSteps(0, 5, 4) == 4 && NextSteps(0, 5, 5) == 4
  {
    NextStepsClamp(0, 5, 4);
    NextStepsClamp(0, 5, 5);
  }

  /** A forward step that moved is undone by a backward step, and vice versa. */
  lemma StepsInverse(cur: int, total: nat)
    requires ValidIndex(cur, total)
    ensures NextTarget(cur, total) != cur ==> PrevTarget(NextTarget(cur, total), total) == cur
    ensures PrevTarget(cur, total) != cur ==> NextTarget(PrevTarget(cur, total), total) == cur
  {
  }

  // ---------------------------------------------------------------------
  // Re-sync from the scroll position
  // ---------------------------------------------------------------------

  /** The viewport midpoint scrollY + innerHeight / 2 lies inside the
      section's span, both ends included. Every coordinate is doubled, which
      keeps the half-pixel midpoint exact. */
  predicate Contains(s: Section, v: Viewport) {
    2 * s.top <= 2 * v.scrollY + v.innerHeight <= 2 * (s.top + s.height)
  }

  /** The index held after the section loop of updateActiveSection has
      visited sections[..n], starting from cur. */
  function SyncedAfter(sections: seq<Section>, v: Viewport, cur: int, n: nat): (r: int)
    requires n <= |sections|
    ensures r == cur || (0 <= r < n && Contains(sections[r], v))
  {
    if n == 0 then cur
    else if Contains(sections[n - 1], v) then n - 1
    else SyncedAfter(sections, v, cur, n - 1)
  }

  /** The loop ends on the last section whose span contains the midpoint, so
      on a boundary shared by two sections the later one wins; when no span
      contains it the index is left as it was. */
  lemma {:induction false} SyncedIsLastContaining(sections: seq<Section>, v: Viewport, cur: int, n: nat)
    requires n <= |sections|
    ensures (forall k :: 0 <= k < n ==> !Contains(sections[k], v)) ==> SyncedAfter(sections, v, cur, n) == cur
    ensures (exists k :: 0 <= k < n && Contains(sections[k], v)) ==>
              var r := SyncedAfter(sections, v, cur, n);
              0 <= r < n && Contains(sections[r], v) &&
              forall k :: r < k < n ==> !Contains(sections[k], v)
  {
    if n > 0 && !Contains(sections[n - 1], v) {
      SyncedIsLastContaining(sections, v, cur, n - 1);
    }
  }

  /** The indices at which that loop changes the current index, in visiting
      order: each one triggers updateActiveStates and triggerSectionAnimations. */
  function Transitions(sections: seq<Section>, v: Viewport, cur: int, n: nat): (r: seq<int>)
    requires n <= |sections|
    ensures forall i :: 0 <= i < |r| ==> 0 <= r[i] < n && Contains(sections[r[i]], v)
  {
    if n == 0 then []
    else
      Transitions(sections, v, cur, n - 1) +
      (if Contains(sections[n - 1], v) && n - 1 != SyncedAfter(sections, v, cur, n - 1)
       then [n - 1] else [])
  }

  /** Transitions are visited in increasing index order, so no section's
      entrance is replayed twice by one re-sync. */
  lemma {:induction false} TransitionsIncreasing(sections: seq<Section>, v: Viewport, cur: int, n: nat)
    requires n <= |sections|
    ensures forall i, j :: 0 <= i < j < |Transitions(sections, v, cur, n)| ==>
              Transitions(sections, v, cur, n)[i] < Transitions(sections, v, cur, n)[j]
  {
    if n > 0 {
      TransitionsIncreasing(sections, v, cur, n - 1);
      var prev := Transitions(sections, v, cur, n - 1);
      var r := Transitions(sections, v, cur, n);
      if r != prev {
        assert r == prev + [n - 1];
        forall i, j | 0 <= i < j < |r| ensures r[i] < r[j] {
          if j < |prev| {
            assert r[i] == prev[i] && r[j] == prev[j];
          } else {
            assert r[i] == prev[i] < n - 1;
          }
        }
      }
    }
  }

  /** The last transition is the index the loop ends on. */
  lemma {:induction false} LastTransitionIsSynced(sections: seq<Section>, v: Viewport, cur: int, n: nat)
    requires n <= |sections|
    requires Transitions(sections, v, cur, n) != []
    ensures Transitions(sections, v, cur, n)[|Transitions(sections, v, cur, n)| - 1]
            == SyncedAfter(sections, v, cur, n)
  {
    var prev := Transitions(sections, v, cur, n - 1);
    if Transitions(sections, v, cur, n) == prev {
      LastTransitionIsSynced(sections, v, cur, n - 1);
    }
  }

  /** Nothing changes exactly when every containing section is already the
      index held on reaching it. */
  lemma {:induction false} NoTransitionsIff(sections: seq<Section>, v: Viewport, cur: int, n: nat)
    requires n <= |sections|
    ensures Transitions(sections, v, cur, n) == [] <==>
            forall k :: 0 <= k < n && Contains(sections[k], v) ==> k == SyncedAfter(sections, v, cur, k)
  {
    if n > 0 {
      NoTransitionsIff(sections, v, cur, n - 1);
      var prev := Transitions(sections, v, cur, n - 1);
      var step := if Contains(sections[n - 1], v) && n - 1 != SyncedAfter(sections, v, cur, n - 1)
                  then [n - 1] else [];
      assert Transitions(sections, v, cur, n) == prev + step;
      assert |prev + step| == |prev| + |step|;
    }
  }

  /** At most one section's span contains the midpoint. */
  predicate Unambiguous(sections: seq<Section>, v: Viewport) {
    forall a, b :: 0 <= a < b < |sections| ==> !(Contains(sections[a], v) && Contains(sections[b], v))
  }

  /** A second re-sync from the same scroll position changes nothing exactly
      when the midpoint lies in at most one section. On a boundary shared by
      two sections the loop flips to the earlier one and back again. */
  lemma ResyncStableIff(sections: seq<Section>, v: Viewport, cur: int)
    ensures var r := SyncedAfter(sections, v, cur, |sections|);
            Transitions(sections, v, r, |sections|) == [] <==> Unambiguous(sections, v)
  {
    var n := |sections|;
    var r := SyncedAfter(sections, v, cur, n);
    NoTransitionsIff(sections, v, r, n);
    SyncedIsLastContaining(sections, v, cur, n);
    if Unambiguous(sections, v) {
      forall k | 0 <= k < n && Contains(sections[k], v)
        ensures k == SyncedAfter(sections, v, r, k)
      {
        assert forall j :: 0 <= j < k ==> !Contains(sections[j], v);
        SyncedIsLastContaining(sections, v, r, k);
        assert SyncedAfter(sections, v, r, k) == r;
      }
    } else {
      var a, b :| 0 <= a < b < n && Contains(sections[a], v) && Contains(sections[b], v);
      assert a != SyncedAfter(sections, v, r, a);
    }
  }

  /** Five stacked 100px sections, current index 0, the midpoint at 250 inside
      section 2: the re-sync moves to 2 through a single transition. */
  lemma SyncScenario()
    ensures var s := [Section(0, 100, 3), Section(100, 100, 3), Section(200, 100, 3),
                      Section(300, 100, 3), Section(400, 100, 3)];
            var v := Viewport(200, 100);
            SyncedAfter(s, v, 0, 5) == 2 && Transitions(s, v, 0, 5) == [2]
  {
    var s := [Section(0, 100, 3), Section(100, 100, 3), Section(200, 100, 3),
              Section(300, 100, 3), Section(400, 100, 3)];
    var v := Viewport(200, 100);
    assert SyncedAfter(s, v, 0, 2) == 0 && Transitions(s, v, 0, 2) == [];
    assert SyncedAfter(s, v, 0, 3) == 2 && Transitions(s, v, 0, 3) == [2];
    assert SyncedAfter(s, v, 0, 4) == 2 && Transitions(s, v, 0, 4) == [2];
  }

  /** Two 100px sections with the midpoint on their shared boundary at 100:
      starting from section 1, one re-sync flips to section 0 and back to 1,
      replaying both entrances, and the next re-sync does the same again. */
  lemma BoundaryFlipScenario()
    ensures var s := [Section(0, 100, 1), Section(100, 100, 1)];
            var v := Viewport(50, 100);
            SyncedAfter(s, v, 1, 2) == 1 && Transitions(s, v, 1, 2) == [0, 1]
  {
    var s := [Section(0, 100, 1), Section(100, 100, 1)];
    var v := Viewport(50, 100);
    assert SyncedAfter(s, v, 1, 1) == 0 && Transitions(s, v, 1, 1) == [0];
  }

  // ---------------------------------------------------------------------
  // Entrance animation schedule
  // ---------------------------------------------------------------------

  /** The delay after which the index-th animatable child is restored. */
  function StaggerDelay(index: nat): nat {
    index * 100 + 200
  }

  /** The tasks triggerSectionAnimations schedules for a section with count
      animatable children, in element order. */
  function EntranceTasks(section: nat, count: nat): seq<Task> {
    seq(count, e requires 0 <= e < count => Task(section, e, StaggerDelay(e)))
  }

  /** One task per child; delays start at 200 ms and strictly increase by 100 ms. */
  lemma EntranceSchedule(section: nat, count: nat)
    ensures var ts := EntranceTasks(section, count);
            |ts| == count &&
            (count > 0 ==> ts[0].delay == 200) &&
            (forall i :: 0 <= i < count ==> ts[i].section == section && ts[i].element == i) &&
            (forall i, j :: 0 <= i < j < count ==> ts[i].delay < ts[j].delay) &&
            (forall i :: 0 < i < count ==> ts[i].delay == ts[i - 1].delay + 100)
  {
  }

  /** The tasks scheduled by a run of transitions, in order. */
  function TasksFor(sections: seq<Section>, ts: seq<int>): seq<Task>
    requires forall i :: 0 <= i < |ts| ==> 0 <= ts[i] < |sections|
  {
    if ts == [] then []
    else
      var k := ts[|ts| - 1];
      TasksFor(sections, ts[..|ts| - 1]) + EntranceTasks(k, sections[k].animated)
  }

  /** One more transition schedules that section's entrance after the rest. */
  lemma TasksForSnoc(sections: seq<Section>, ts: seq<int>, k: int)
    requires forall i :: 0 <= i < |ts| ==> 0 <= ts[i] < |sections|
    requires 0 <= k < |sections|
    ensures TasksFor(sections, ts + [k]) == TasksFor(sections, ts) + EntranceTasks(k, sections[k].animated)
  {
    assert (ts + [k])[..|ts|] == ts;
  }

  lemma AppendAssoc<T>(a: seq<T>, b: seq<T>, c: seq<T>)
    ensures (a + b) + c == a + (b + c)
  {
  }
}
