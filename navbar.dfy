/**
 * The navigation bar's component state (src/components/Navbar.tsx): the menu
 * open flag, the hovered label, the active section, and the debounce timer
 * that drives recomputation of the active section from scroll events.
 *
 * The page geometry a recomputation reads (which elements exist and where
 * they are) is passed in at the moment the recomputation runs.
 */
module Navbar {
  import opened Wrappers
  import opened Sections
  import opened Debounce

  class NavbarState {
    var isOpen: bool
    var activeItem: string
    var activeSection: string
    /** Whether the scroll listener is registered (between mount and teardown). */
    var listening: bool
    /** The current time, in milliseconds. */
    var now: int
    /** The deadline of the scheduled recomputation, if one is scheduled. */
    var pending: Option<int>

    /** The debounce state held by this component. */
    function TimerState(): Timer
      reads this
    {
      Timer(now, pending)
    }

    /** The initial state of the hooks: menu closed, nothing hovered, active section "home". */
    constructor (start: int)
      ensures !isOpen && activeItem == "" && activeSection == "home"
      ensures !listening && now == start && pending == None
    {
      isOpen := false;
      activeItem := "";
      activeSection := "home";
      listening := false;
      now := start;
      pending := None;
    }

    /**
     * The effect run at mount: one unconditional recomputation, then the
     * scroll listener is registered. Whatever the active section was, it is
     * now the first section hit for the current geometry.
     */
    method Mount(doc: Document, innerHeight: real)
      modifies this`activeSection, this`listening
      ensures activeSection == FirstHit(SectionIds(), doc, innerHeight)
      ensures listening
    {
      activeSection := HandleScroll(doc, innerHeight);
      listening := true;
    }

    /**
     * A scroll event. While the listener is registered it cancels the pending
     * recomputation and schedules one `Delay` from now; otherwise nothing happens.
     */
    method OnScroll()
      modifies this`pending
      ensures listening ==> TimerState() == Schedule(old(TimerState()))
      ensures listening ==> pending == Some(now + Delay)
      ensures !listening ==> pending == old(pending)
    {
      if listening {
        pending := Some(now + Delay);
      }
    }

    /**
     * The clock moves to `t`. If the scheduled recomputation is due by then it
     * runs, reading the geometry `doc`/`innerHeight` of the moment it fires.
     */
    method Tick(t: int, doc: Document, innerHeight: real) returns (fired: bool)
      requires now <= t
      modifies this`now, this`pending, this`activeSection
      ensures (TimerState(), fired) == Advance(old(TimerState()), t)
      ensures fired ==> activeSection == FirstHit(SectionIds(), doc, innerHeight)
      ensures !fired ==> activeSection == old(activeSection)
    {
      fired := pending.Some? && pending.value <= t;
      if fired {
        activeSection := HandleScroll(doc, innerHeight);
        pending := None;
      }
      now := t;
    }

    /** Teardown: the listener is removed and the pending recomputation cancelled. */
    method Unmount()
      modifies this`listening, this`pending
      ensures !listening && TimerState() == Cancel(old(TimerState()))
    {
      listening := false;
      pending := None;
    }

    /** The menu button flips the menu open flag. */
    method ToggleMenu()
      modifies this`isOpen
      ensures isOpen == !old(isOpen)
    {
      isOpen := !isOpen;
    }

    /**
     * A click on the link to section `id`: when the element exists the page
     * scrolls to it (`scrolled`) and the menu closes; otherwise nothing changes.
     */
    method HandleClick(id: string, doc: Document) returns (scrolled: bool)
      modifies this`isOpen
      ensures scrolled <==> id in doc
      ensures isOpen == if id in doc then false else old(isOpen)
    {
      scrolled := id in doc;
      if scrolled {
        isOpen := false;
      }
    }

    /** The mouse enters the menu entry `item`. */
    method HoverStart(item: string)
      modifies this`activeItem
      ensures activeItem == item
    {
      activeItem := item;
    }

    /** The mouse leaves a menu entry. */
    method HoverEnd()
      modifies this`activeItem
      ensures activeItem == ""
    {
      activeItem := "";
    }

    /** Whether the desktop entry for `item` shows the underline. */
    predicate ShowsUnderline(item: string)
      reads this
    {
      Underlined(activeSection, activeItem, item)
    }
  }

  /**
   * Mount, a burst of scroll events less than `Delay` apart, then a quiet
   * period of `Delay`: the active section is recomputed once at mount and once
   * after the burst, and ends as the first section hit for the final geometry.
   */
  method MountBurstSettle(start: int, doc0: Document, ts: seq<int>, doc: Document, innerHeight: real)
    returns (nav: NavbarState, recomputations: nat)
    requires |ts| > 0 && start <= ts[0]
    requires forall i :: 0 < i < |ts| ==> ts[i - 1] <= ts[i] < ts[i - 1] + Delay
    ensures recomputations == 1
    ensures nav.activeSection == FirstHit(SectionIds(), doc, innerHeight)
    ensures nav.pending == None && nav.listening
  {
    nav := new NavbarState(start);
    nav.Mount(doc0, innerHeight);
    recomputations := 0;
    var i := 0;
    while i < |ts|
      invariant 0 <= i <= |ts|
      invariant nav.listening
      invariant Ordered(Idle(start), ts)
      invariant Run(Idle(start), ts[..i]) == (nav.TimerState(), recomputations)
      invariant i > 0 ==> nav.now == ts[i - 1]
      invariant i == 0 ==> nav.TimerState() == Idle(start)
    {
      assert ts[..i + 1] == ts[..i] + [ts[i]];
      RunSnoc(Idle(start), ts[..i], ts[i]);
      var fired := nav.Tick(ts[i], doc0, innerHeight);
      nav.OnScroll();
      recomputations := recomputations + if fired then 1 else 0;
      i := i + 1;
    }
    assert ts[..|ts|] == ts;
    var last := ts[|ts| - 1];
    Burst(Idle(start), ts, last + Delay);
    var fired := nav.Tick(last + Delay, doc, innerHeight);
    recomputations := recomputations + if fired then 1 else 0;
  }
}
