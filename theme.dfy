/**
 * Dark/light theme persistence and system-preference sync (app.js, lines 13-59).
 *
 * The page state the theme code touches is a `ThemeView`: the `theme` key of
 * local storage, the `(prefers-color-scheme: dark)` media flag, the optional
 * `#darkModeToggle` checkbox and the `theme-dark` class on the root and body
 * elements. The pure functions below are the specification of each listener;
 * `ThemeController` is the imperative form whose methods follow the script
 * statement by statement and are proved against them.
 */
module Theme {

  /** What `localStorage.getItem('theme')` returns: null, or a string. */
  datatype StoredTheme = Absent | Stored(value: string)

  const DARK: string := "dark"
  const LIGHT: string := "light"

  /** JavaScript truthiness of a stored value: null and the empty string are falsy. */
  predicate Truthy(v: StoredTheme)
  {
    v.Stored? && v.value != ""
  }

  /**
   * The effective theme of `applyThemeFromPreference`: dark when "dark" is stored,
   * or when nothing at all is stored and the system prefers dark.
   */
  function ShouldDark(stored: StoredTheme, systemDark: bool): (dark: bool)
    ensures stored == Stored(DARK) ==> dark
    ensures stored.Stored? && stored.value != DARK ==> !dark
    ensures stored == Absent ==> (dark <==> systemDark)
  {
    stored == Stored(DARK) || (stored == Absent && systemDark)
  }

  /** What storage holds after `storeTheme(val)`: a falsy value removes the key, any other is written. */
  function StoreResult(val: string): (s: StoredTheme)
    ensures s == Absent <==> val == ""
    ensures s.Stored? ==> s.value == val
    ensures Truthy(s) <==> val != ""
  {
    if val == "" then Absent else Stored(val)
  }

  /** The part of the page the theme code reads and writes. */
  datatype ThemeView = ThemeView(
    stored: StoredTheme,  // localStorage 'theme'
    systemDark: bool,     // media.matches for (prefers-color-scheme: dark)
    hasToggle: bool,      // #darkModeToggle exists
    checked: bool,        // darkToggle.checked
    rootDark: bool,       // <html> carries the class theme-dark
    hasBody: bool,        // document.body exists
    bodyDark: bool)       // <body> carries the class theme-dark

  /** The elements present on the page never change. */
  predicate SameElements(v: ThemeView, r: ThemeView)
  {
    r.hasToggle == v.hasToggle && r.hasBody == v.hasBody
  }

  /** The visible markers agree with each other: body class and checkbox follow the root class. */
  predicate MarkersAgree(v: ThemeView)
  {
    (v.hasBody ==> v.bodyDark == v.rootDark) && (v.hasToggle ==> v.checked == v.rootDark)
  }

  /** The applied theme is the one the stored preference and the system flag resolve to. */
  predicate Resolved(v: ThemeView)
  {
    MarkersAgree(v) && v.rootDark == ShouldDark(v.stored, v.systemDark)
  }

  /** `setThemeClass(isDark)`: the root always, the body only when it exists. */
  function WithThemeClass(v: ThemeView, isDark: bool): (r: ThemeView)
    ensures r.rootDark == isDark
    ensures v.hasBody ==> r.bodyDark == isDark
    ensures !v.hasBody ==> r.bodyDark == v.bodyDark
    ensures r.(rootDark := v.rootDark, bodyDark := v.bodyDark) == v
  {
    v.(rootDark := isDark, bodyDark := if v.hasBody then isDark else v.bodyDark)
  }

  /** `applyThemeFromPreference()`, run once at start-up whether or not the toggle exists. */
  function AfterApply(v: ThemeView): (r: ThemeView)
    ensures Resolved(r)
    ensures r.stored == v.stored && r.systemDark == v.systemDark && SameElements(v, r)
    ensures !v.hasToggle ==> r.checked == v.checked
  {
    var shouldDark := ShouldDark(v.stored, v.systemDark);
    WithThemeClass(if v.hasToggle then v.(checked := shouldDark) else v, shouldDark)
  }

  /**
   * The toggle's `change` listener, after the user has set the checkbox to
   * `nowChecked`: the explicit choice is stored and applied.
   */
  function AfterToggleChange(v: ThemeView, nowChecked: bool): (r: ThemeView)
    requires v.hasToggle
    ensures r.checked == nowChecked && r.rootDark == nowChecked
    ensures r.stored == Stored(if nowChecked then DARK else LIGHT)
    ensures Truthy(r.stored) && Resolved(r)
    ensures r.systemDark == v.systemDark && SameElements(v, r)
  {
    var v1 := v.(checked := nowChecked);
    var mode := if v1.checked then DARK else LIGHT;
    WithThemeClass(v1.(stored := StoreResult(mode)), mode == DARK)
  }

  /**
   * A change of the system colour scheme to `nowDark`. The media listener exists
   * only when the toggle does, and re-resolves only when no truthy preference is stored.
   */
  function AfterSystemChange(v: ThemeView, nowDark: bool): (r: ThemeView)
    ensures r.systemDark == nowDark && r.stored == v.stored && SameElements(v, r)
    ensures v.hasToggle && v.stored == Absent ==> r.rootDark == nowDark && r.checked == nowDark
    ensures v.hasToggle && v.stored == Stored("") ==> !r.rootDark && !r.checked
    ensures Truthy(v.stored) || !v.hasToggle ==>
      r.rootDark == v.rootDark && r.bodyDark == v.bodyDark && r.checked == v.checked
    ensures MarkersAgree(v) ==> MarkersAgree(r)
  {
    var v1 := v.(systemDark := nowDark);
    if v.hasToggle && !Truthy(v1.stored) then AfterApply(v1) else v1
  }

  lemma SystemChangeKeepsResolved(v: ThemeView, nowDark: bool)
    requires v.hasToggle && Resolved(v)
    ensures Resolved(AfterSystemChange(v, nowDark))
  {
  }

  /**
   * What can happen once the toggle exists: the two events the listeners receive,
   * and a write to `localStorage['theme']` by another tab of the site, which every
   * tab shares and to which no listener of this page reacts.
   */
  datatype ThemeEvent = ToggleChange(nowChecked: bool) | SystemChange(nowDark: bool) | ForeignWrite(val: StoredTheme)

  function Step(v: ThemeView, e: ThemeEvent): (r: ThemeView)
    requires v.hasToggle
    ensures SameElements(v, r)
  {
    match e
    case ToggleChange(c) => AfterToggleChange(v, c)
    case SystemChange(d) => AfterSystemChange(v, d)
    case ForeignWrite(val) => v.(stored := val)
  }

  /** The page after a sequence of events, first event first. */
  function Run(v: ThemeView, events: seq<ThemeEvent>): (r: ThemeView)
    requires v.hasToggle
    ensures SameElements(v, r)
    decreases |events|
  {
    if events == [] then v else Run(Step(v, events[0]), events[1..])
  }

  lemma {:induction false} RunAppend(v: ThemeView, a: seq<ThemeEvent>, b: seq<ThemeEvent>)
    requires v.hasToggle
    ensures Run(v, a + b) == Run(Run(v, a), b)
    decreases |a|
  {
    if a == [] {
      assert a + b == b;
    } else {
      assert (a + b)[1..] == a[1..] + b;
      RunAppend(Step(v, a[0]), a[1..], b);
    }
  }

  /** Every listener keeps the checkbox and the two classes in agreement, whatever other tabs store. */
  lemma {:induction false} RunKeepsMarkersAgree(v: ThemeView, events: seq<ThemeEvent>)
    requires v.hasToggle && MarkersAgree(v)
    ensures MarkersAgree(Run(v, events))
    decreases |events|
  {
    if events != [] {
      RunKeepsMarkersAgree(Step(v, events[0]), events[1..]);
    }
  }

  /** Without writes from other tabs, every listener keeps the applied theme equal to the resolved one. */
  lemma {:induction false} RunKeepsResolved(v: ThemeView, events: seq<ThemeEvent>)
    requires v.hasToggle && Resolved(v)
    requires forall i :: 0 <= i < |events| ==> !events[i].ForeignWrite?
    ensures Resolved(Run(v, events))
    decreases |events|
  {
    if events != [] {
      if events[0].SystemChange? {
        SystemChangeKeepsResolved(v, events[0].nowDark);
      }
      RunKeepsResolved(Step(v, events[0]), events[1..]);
    }
  }

  /** Once a choice is stored, no sequence of system changes alters what is applied or stored. */
  lemma {:induction false} SystemChangesKeepChoice(v: ThemeView, events: seq<ThemeEvent>)
    requires v.hasToggle && Truthy(v.stored)
    requires forall i :: 0 <= i < |events| ==> events[i].SystemChange?
    ensures var r := Run(v, events);
      r.stored == v.stored && r.rootDark == v.rootDark && r.bodyDark == v.bodyDark && r.checked == v.checked
    decreases |events|
  {
    if events != [] {
      SystemChangesKeepChoice(Step(v, events[0]), events[1..]);
    }
  }

  /** The user's last toggle decides the theme, whatever happened before and whatever the system does after. */
  lemma LastToggleWins(v: ThemeView, before: seq<ThemeEvent>, nowChecked: bool, after: seq<ThemeEvent>)
    requires v.hasToggle
    requires forall i :: 0 <= i < |after| ==> after[i].SystemChange?
    ensures var r := Run(v, before + [ToggleChange(nowChecked)] + after);
      r.rootDark == nowChecked && r.checked == nowChecked && r.stored == Stored(if nowChecked then DARK else LIGHT)
  {
    RunAppend(v, before + [ToggleChange(nowChecked)], after);
    RunAppend(v, before, [ToggleChange(nowChecked)]);
    var w := Run(v, before + [ToggleChange(nowChecked)]);
    assert w == AfterToggleChange(Run(v, before), nowChecked);
    SystemChangesKeepChoice(w, after);
  }

  /**
   * A write by another tab is not picked up: a page showing light under a stored
   * `light` keeps showing light after another tab stores `dark`, even across a
   * system change, until its own toggle is used.
   */
  lemma ForeignWriteNotApplied(v: ThemeView, events: seq<ThemeEvent>)
    requires v == ThemeView(Stored(LIGHT), true, true, false, false, true, false)
    requires events == [ForeignWrite(Stored(DARK)), SystemChange(true)]
    ensures Resolved(v) && !Resolved(Run(v, events))
    ensures Run(v, events).stored == Stored(DARK) && !Run(v, events).rootDark
  {
    var w := v.(stored := Stored(DARK));
    assert Step(v, events[0]) == w;
    assert events[1..] == [SystemChange(true)] && events[1..][1..] == [];
    assert Truthy(w.stored);
    var u := AfterSystemChange(w, true);
    assert Run(w, events[1..]) == Run(Step(w, SystemChange(true)), []);
    assert Run(v, events) == Run(w, events[1..]);
    assert Run(v, events) == u;
  }

  /** While nothing is stored, the theme follows the system: it ends as the last system change said. */
  lemma {:induction false} UnsetFollowsSystem(v: ThemeView, events: seq<ThemeEvent>)
    requires v.hasToggle && v.stored == Absent && events != []
    requires forall i :: 0 <= i < |events| ==> events[i].SystemChange?
    ensures Run(v, events).rootDark == events[|events| - 1].nowDark
    decreases |events|
  {
    if |events| > 1 {
      UnsetFollowsSystem(Step(v, events[0]), events[1..]);
    }
  }

  /**
   * The listener's test `!getStoredTheme()` and the resolution's test `stored == null`
   * disagree on the empty string: with "" stored a system change re-applies the theme,
   * yet resolution ignores the system and yields light. `storeTheme` itself never writes "".
   */
  lemma EmptyStoredIgnoresSystem(v: ThemeView)
    requires v.hasToggle && v.stored == Stored("")
    ensures !Truthy(v.stored) && ShouldDark(Absent, true)
    ensures !AfterSystemChange(v, true).rootDark
    ensures forall val: string :: StoreResult(val) != Stored("")
  {
  }

  /** The script's theme state, updated in place by its listeners. */
  class ThemeController {
    var stored: StoredTheme
    var systemDark: bool
    const hasToggle: bool
    var checked: bool
    var rootDark: bool
    const hasBody: bool
    var bodyDark: bool

    function View(): ThemeView
      reads this
    {
      ThemeView(stored, systemDark, hasToggle, checked, rootDark, hasBody, bodyDark)
    }

    /** Script start: the page as loaded, then `applyThemeFromPreference()` (lines 43 and 58). */
    constructor (stored: StoredTheme, systemDark: bool, hasToggle: bool, checked: bool,
                 rootDark: bool, hasBody: bool, bodyDark: bool)
      ensures View() == AfterApply(ThemeView(stored, systemDark, hasToggle, checked, rootDark, hasBody, bodyDark))
      ensures Resolved(View())
    {
      this.stored := stored;
      this.systemDark := systemDark;
      this.hasToggle := hasToggle;
      this.checked := checked;
      this.rootDark := rootDark;
      this.hasBody := hasBody;
      this.bodyDark := bodyDark;
      new;
      ApplyThemeFromPreference();
    }

    method SetThemeClass(isDark: bool)
      modifies this
      ensures View() == WithThemeClass(old(View()), isDark)
    {
      rootDark := isDark;
      if hasBody {
        bodyDark := isDark;
      }
    }

    method StoreTheme(val: string)
      modifies this
      ensures View() == old(View()).(stored := StoreResult(val))
    {
      if val == "" {
        stored := Absent;
        return;
      }
      stored := Stored(val);
    }

    method ApplyThemeFromPreference()
      modifies this
      ensures View() == AfterApply(old(View()))
    {
      var shouldDark := ShouldDark(stored, systemDark);
      if hasToggle {
        checked := shouldDark;
      }
      SetThemeClass(shouldDark);
    }

    /** The toggle's `change` listener; the browser has already set `checked` to `nowChecked`. */
    method OnToggleChange(nowChecked: bool)
      requires hasToggle
      modifies this
      ensures View() == AfterToggleChange(old(View()), nowChecked)
    {
      checked := nowChecked;
      var mode := if checked then DARK else LIGHT;
      StoreTheme(mode);
      SetThemeClass(mode == DARK);
    }

    /** A system colour-scheme change; the listener that reacts to it exists only with the toggle. */
    method OnSystemChange(nowDark: bool)
      modifies this
      ensures View() == AfterSystemChange(old(View()), nowDark)
    {
      systemDark := nowDark;
      if hasToggle && !Truthy(stored) {
        ApplyThemeFromPreference();
      }
    }
  }
}
