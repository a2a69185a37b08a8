/**
 * Mobile menu close rule (app.js, lines 61-75): the `#menu-toggle` checkbox is
 * cleared by a click on any navigation link, and by Escape while it is checked.
 * The user opens and closes the menu by clicking the checkbox itself; the
 * script has no listener for that click, the browser flips the checkbox.
 */
module Menu {

  /**
   * What can change the checkbox: the user's own click on it (the browser's
   * default action, which flips it), and the two events the script listens to.
   */
  datatype MenuEvent = UserToggle | LinkClick | KeyDown(key: string)

  const ESCAPE: string := "Escape"

  /** `menuToggle.checked` after one event. */
  function AfterEvent(open: bool, e: MenuEvent): (open': bool)
    ensures e.UserToggle? ==> open' == !open
    ensures !e.UserToggle? && open' ==> open
    ensures e.LinkClick? ==> !open'
    ensures e.KeyDown? && e.key == ESCAPE ==> !open'
    ensures e.KeyDown? && e.key != ESCAPE ==> open' == open
  {
    match e
    case UserToggle => !open
    case LinkClick => if open then false else open
    case KeyDown(key) => if key == ESCAPE && open then false else open
  }

  /** A listener handles the same event twice as once; the user's click undoes itself. */
  lemma AfterEventTwice(open: bool, e: MenuEvent)
    ensures !e.UserToggle? ==> AfterEvent(AfterEvent(open, e), e) == AfterEvent(open, e)
    ensures e.UserToggle? ==> AfterEvent(AfterEvent(open, e), e) == open
  {
  }

  /** The checkbox after a sequence of events, first event first; only the user's click ever opens the menu. */
  function Run(open: bool, events: seq<MenuEvent>): (r: bool)
    ensures r ==> open || exists i :: 0 <= i < |events| && events[i].UserToggle?
    decreases |events|
  {
    if events == [] then open
    else
      var r := Run(AfterEvent(open, events[0]), events[1..]);
      assert r && !open && !events[0].UserToggle? ==> exists i :: 0 <= i < |events[1..]| && events[1..][i].UserToggle?;
      r
  }

  lemma {:induction false} RunAppend(open: bool, a: seq<MenuEvent>, b: seq<MenuEvent>)
    ensures Run(open, a + b) == Run(Run(open, a), b)
    decreases |a|
  {
    if a == [] {
      assert a + b == b;
    } else {
      assert (a + b)[1..] == a[1..] + b;
      RunAppend(AfterEvent(open, a[0]), a[1..], b);
    }
  }

  /** After a link click, or an Escape press, the menu stays closed until the user clicks the checkbox again. */
  lemma ClosedAfterClose(open: bool, before: seq<MenuEvent>, e: MenuEvent, after: seq<MenuEvent>)
    requires e == LinkClick || e == KeyDown(ESCAPE)
    requires forall i :: 0 <= i < |after| ==> !after[i].UserToggle?
    ensures !Run(open, before + [e] + after)
  {
    RunAppend(open, before + [e], after);
    RunAppend(open, before, [e]);
  }

  /** Keys other than Escape leave the menu as it is. */
  lemma {:induction false} OtherKeysChangeNothing(open: bool, events: seq<MenuEvent>)
    requires forall i :: 0 <= i < |events| ==> events[i].KeyDown? && events[i].key != ESCAPE
    ensures Run(open, events) == open
    decreases |events|
  {
    if events != [] {
      OtherKeysChangeNothing(open, events[1..]);
    }
  }

  /** The menu checkbox, written in place by the listeners. */
  class MenuToggle {
    var checked: bool

    constructor (checked: bool)
      ensures this.checked == checked
    {
      this.checked := checked;
    }

    /** Click listener of every `.nav-links a`. */
    method OnLinkClick()
      modifies this
      ensures checked == AfterEvent(old(checked), LinkClick)
      ensures !checked
    {
      if checked {
        checked := false;
      }
    }

    /** The document's `keydown` listener. */
    method OnKeyDown(key: string)
      modifies this
      ensures checked == AfterEvent(old(checked), KeyDown(key))
      ensures checked == (old(checked) && key != ESCAPE)
    {
      if key == ESCAPE && checked {
        checked := false;
      }
    }
  }
}
