# Portfolio site script: a verified model

`app.js` is the one script of a static portfolio site. It runs once per page load and installs a few
independent behaviours. This project models six of them in Dafny and proves what each one promises:

- **Theme** (`theme.dfy`). The theme is resolved from the stored preference (`localStorage['theme']`)
  and the system preference (`prefers-color-scheme: dark`). It is applied as the `theme-dark` class on
  the root and body elements and mirrored in the dark-mode checkbox. The two listeners are modelled:
  a toggle change stores `dark`/`light`, and a system change re-applies the theme only while nothing
  truthy is stored. A write to the shared `localStorage['theme']` by another tab of the site is an
  event too; no listener of the page reacts to it.
- **Mobile menu** (`menu.dfy`). Clicking a navigation link, or pressing Escape, unchecks the menu
  checkbox. The user's own click on the checkbox, which the browser handles without the script, is
  an event of the model too: it flips the checkbox, and it is the only event that opens the menu.
- **Footer year** (`footer.dfy`). The first match of `/©\s*\d{4}/` in the footer's HTML is replaced
  by `© <year>`. The regular expression is modelled as a matcher (`MatchAt`, `FirstMatch`) with a
  declarative partner (`IsMatch`).
- **Print CV** (`print_cv.dfy`). On the CV page (`/\/cv\.html$/i`) a click prints the page.
  Anywhere else it opens `cv.html?print=1` in a popup and navigates the same tab there when no window
  handle comes back. The default action is always prevented.
- **Parallax frame guard** (`frame_guard.dfy`). `rafId` ensures that at most one animation frame
  is pending, whatever the number of pointer and scroll events. Each frame recomputes at most once,
  and exactly once when a tick was requested or pending. After `pagehide` nothing is recomputed again.
- **Scroll reveal** (`reveal.dfy`). Each `.reveal` item gets `in-view` on its first intersecting
  observer entry and is then unobserved. Without IntersectionObserver, every item is marked at once.

Each unit whose state the script updates in place (theme, menu, frame guard, scroll reveal) has two parts:

- A pure *view* with step functions and lemmas over event traces. For the menu the view is the
  checkbox itself; for scroll reveal it is `Reveal.Items` with the step function `AfterBatch`.
- A class whose fields are that state. Its methods mirror the script's functions, and each method's
  `ensures` ties its new state to the matching step function. `Reveal.RevealItems.Setup` is the
  exception: its three outcomes are stated directly on the arrays.

The stored value `''` cannot be written by the script itself, but another page or the user can put it
in `localStorage`. The model includes it, because with `''` stored the listener's truthiness test and the
resolution's `== null` test disagree (see `Theme.EmptyStoredIgnoresSystem`).

The browser is abstracted as follows:

- `localStorage`, `matchMedia`, the DOM, `location`, `window.open` and `requestAnimationFrame` are
  parameters or fields.
- Item k of the `.reveal` list is index k of two arrays.
- The current year is a `nat` parameter.

## Model

| member | source | states |
|---|---|---|
| Theme.ShouldDark | app.js:34-38 | A stored `dark` means dark; any other stored value means light; nothing stored means the system preference decides |
| Theme.StoreResult | app.js:27-30 | Storing a falsy (empty) value removes the key; any other value is stored as given, and the result is truthy exactly when the value is non-empty |
| Theme.AfterApply | app.js:34-39 | After applying the preference, the checkbox (when present), the root class and the body class (when a body exists) all equal the resolved theme; the preference inputs are unchanged |
| Theme.AfterToggleChange | app.js:46-50 | A toggle change stores `dark` or `light` according to the checkbox and applies that theme; the stored value is then truthy |
| Theme.AfterSystemChange | app.js:52-54 | A system change re-applies the theme only when nothing truthy is stored; with nothing stored the theme follows the system, and with `""` stored it resolves to light |
| Theme.SystemChangeKeepsResolved | app.js:46-54 | A system change keeps checkbox and classes consistent with the resolution |
| Theme.RunAppend | app.js:46-54 | Replaying listener events is compositional: running `a + b` equals running `b` after `a` |
| Theme.WithThemeClass | app.js:16-21 | The root class becomes `isDark`, the body class too when a body exists; nothing else changes |
| Theme.RunKeepsMarkersAgree | app.js:41-54 | Under any events, including writes by other tabs, the checkbox and the body class keep agreeing with the root class |
| Theme.RunKeepsResolved | app.js:41-54 | Any sequence of toggle and system changes, without writes by other tabs, keeps the page consistent with the resolved theme |
| Theme.ForeignWriteNotApplied | app.js:23-54 | A `dark` stored by another tab is not applied: the page stays light, even across a system change |
| Theme.SystemChangesKeepChoice | app.js:52-54 | Once a choice is stored, no sequence of system changes alters the stored value, the classes or the checkbox |
| Theme.LastToggleWins | app.js:46-54 | After any history, the last toggle decides the theme and the stored value, whatever system changes follow |
| Theme.UnsetFollowsSystem | app.js:34-38 | While nothing is stored, the theme ends as the last system change said |
| Theme.EmptyStoredIgnoresSystem | app.js:36 | With `""` stored, the listener test and the resolution test disagree; the theme stays light under a dark system; `storeTheme` never writes `""` |
| Theme.ThemeController.constructor | app.js:41-59 | Initial load applies the preference, with or without a toggle, and the page is consistent afterwards |
| Theme.ThemeController.SetThemeClass | app.js:16-21 | The root and (if present) body classes become `isDark`; nothing else changes |
| Theme.ThemeController.StoreTheme | app.js:27-30 | Only the stored value changes, as `StoreResult` says |
| Theme.ThemeController.ApplyThemeFromPreference | app.js:34-39 | The new state is `AfterApply` of the old one |
| Theme.ThemeController.OnToggleChange | app.js:46-50 | The new state is `AfterToggleChange` of the old one |
| Theme.ThemeController.OnSystemChange | app.js:52-54 | The new state is `AfterSystemChange` of the old one |
| Menu.AfterEvent | app.js:64-74 | No listener opens the menu; a link click or Escape closes it; any other key changes nothing; the user's click on the checkbox flips it |
| Menu.AfterEventTwice | app.js:64-74 | A listener handles the same event twice as once; two user clicks cancel out |
| Menu.Run | app.js:62-75 | After any sequence of events the menu is open only if it was open before or the user clicked the checkbox |
| Menu.RunAppend | app.js:62-75 | Running `a + b` equals running `b` after `a` |
| Menu.ClosedAfterClose | app.js:62-75 | After a link click or Escape the menu stays closed until the user clicks the checkbox again |
| Menu.OtherKeysChangeNothing | app.js:70-74 | Keys other than Escape leave the menu as it was |
| Menu.MenuToggle.OnLinkClick | app.js:65-67 | A link click unchecks the menu checkbox |
| Menu.MenuToggle.OnKeyDown | app.js:70-74 | A key press leaves the checkbox checked only if it was checked and the key was not Escape |
| Footer.SpaceRun | app.js:81 | The run of whitespace is maximal: every character in it is a space and the one after it is not |
| Footer.MatchAt | app.js:81 | A non-zero result is the length of a match of `©\s*\d{4}` starting at `i` |
| Footer.MatchAtIsMatch | app.js:81 | The matcher and the declarative match agree in both directions: a match with `w` spaces exists at `i` exactly when the matcher returns `w + 5` |
| Footer.FirstMatch | app.js:81 | The result is a match, and no position between `start` and it holds a match |
| Footer.FirstMatchIsLeftmost | app.js:81 | A match at `i` with none before it is what the search finds |
| Footer.DecimalString | app.js:80-81 | The year is written with decimal digits only, at least one, and with a leading `0` only for zero |
| Footer.DecimalStringRoundTrip | app.js:80-81 | Reading back the written digits gives the year |
| Footer.FourDigitYear | app.js:80-81 | Years 1000 to 9999 are written with exactly four digits |
| Footer.Splice | app.js:81 | Replacing `len` characters at `start` keeps the text before, inserts the replacement and keeps the text after |
| Footer.ReplaceFirst | app.js:81 | Without a match the text is unchanged; otherwise the text before the first match is kept, the match becomes the replacement, and the text after it is kept |
| Footer.ReplacementDigits | app.js:81 | Where `© ${year}` was inserted, the sign and one space are followed by digits that read back as the year |
| Footer.Rewrite | app.js:78-82 | Without a match the footer is unchanged; otherwise the text before the first match is kept and the match now reads the sign, one space and digits whose value is the year |
| Footer.RewriteWithoutMatch | app.js:81 | Text without a match is left unchanged |
| Footer.RewriteAtFirstMatch | app.js:78-82 | The first match, and only it, is replaced by `© <year>` |
| Footer.SplicedMatchFound | app.js:81 | The inserted `© dddd` is found again by the same regular expression, at the same place |
| Footer.ReplaceFirstFound | app.js:81 | With a match at `i`, the replacement splices at `i` |
| Footer.SpliceAgain | app.js:81 | Splicing the same replacement over itself changes nothing |
| Footer.RewriteIdempotent | app.js:78-82 | For four-digit years, rewriting an already rewritten footer changes nothing |
| Footer.ExampleFooter | app.js:77-82 | `© 2020 Example` becomes `© 2026 Example` in 2026 |
| PrintCv.Upper | app.js:90 | ASCII case folding keeps the length and folds each character |
| PrintCv.EndsWithIgnoringCase | app.js:90 | True exactly when the suffix fits and equals the text's tail up to ASCII case |
| PrintCv.IsOnCv | app.js:90 | A path is the CV page exactly when it ends with `/cv.html` in any ASCII case |
| PrintCv.CvPagesRecognised | app.js:90 | Any directory followed by `/cv.html`, in any case, is recognised |
| PrintCv.OtherPagesNotCv | app.js:90 | The index page, the root, a `cv.html/` directory, `mycv.html` and a bare `cv.html` are not the CV page |
| PrintCv.PrintUrl | app.js:95-96 | The print URL is the CV page's address followed by exactly the query `?print=1` |
| PrintCv.OnPrintClick | app.js:87-101 | Default navigation is always prevented. On the CV page the click prints and opens nothing. Elsewhere it requests the popup `cv.html?print=1`, `_blank`, with the fixed features, and navigates to the same URL exactly when no window came back |
| FrameGuard.Setup | app.js:143 | The guard starts with no frame pending, listening, and nothing recomputed |
| FrameGuard.AfterTick | app.js:164-167 | A pending frame makes a tick a no-op; otherwise exactly one frame is requested and becomes pending |
| FrameGuard.AfterApply | app.js:169-170 | The recomputation clears the pending frame and counts one recomputation |
| FrameGuard.AfterFrame | app.js:164-177 | A frame runs the pending callback; it recomputes once exactly when listening with a frame pending, and leaves none pending |
| FrameGuard.AfterPageHide | app.js:184-189 | After `pagehide` nothing listens and no callback is pending; the recomputation count is unchanged |
| FrameGuard.RunKeepsValid | app.js:143-189 | Under any event sequence at most one animation-frame callback is ever pending, and it is the one `rafId` names |
| FrameGuard.InputsBetweenFrames | app.js:146-167 | Input events recompute nothing; afterwards a frame is pending exactly when one was before or some pointer or scroll event asked for one |
| FrameGuard.OneRecomputationPerFrame | app.js:146-170 | A burst of inputs followed by one frame recomputes exactly once if a tick was requested or pending, and never more |
| FrameGuard.HiddenStaysIdle | app.js:184-189 | Once hidden, no event sequence registers a callback or recomputes |
| FrameGuard.NothingAfterPageHide | app.js:184-189 | After `pagehide` no event sequence ever recomputes again |
| FrameGuard.ParallaxLoop.constructor | app.js:143 | The loop starts in the `Setup` state |
| FrameGuard.ParallaxLoop.RequestAnimationFrame | app.js:166 | A fresh handle, larger than every earlier one, is registered as the only new callback |
| FrameGuard.ParallaxLoop.RequestTick | app.js:164-167 | The new state is `AfterTick` of the old one |
| FrameGuard.ParallaxLoop.ApplyParallax | app.js:169-170 | The new state is `AfterApply` of the old one |
| FrameGuard.ParallaxLoop.OnMouseMove | app.js:146-150 | A pointer move requests a tick |
| FrameGuard.ParallaxLoop.OnScroll | app.js:152-157 | A scroll requests a tick |
| FrameGuard.ParallaxLoop.OnResize | app.js:159-162 | A resize requests no frame |
| FrameGuard.ParallaxLoop.RunAnimationFrame | app.js:169-176 | The browser runs every pending callback once; the new state is `AfterFrame` of the old one |
| FrameGuard.ParallaxLoop.OnPageHide | app.js:184-189 | The new state is `AfterPageHide` of the old one |
| Reveal.HitExtend | app.js:116-122 | One more entry in a batch reveals exactly what the shorter batch revealed, plus its own target if it intersects |
| Reveal.HitAppend | app.js:116-122 | A batch hits an item exactly when one of its two halves does |
| Reveal.AfterEntry | app.js:117-121 | An intersecting entry marks its target and unobserves it; other entries and other items are untouched |
| Reveal.AfterBatch | app.js:115-123 | After a batch, an item is marked exactly when it was marked or some entry reports it intersecting, and stays observed exactly when it was observed and no entry reported it |
| Reveal.BatchOrderIrrelevant | app.js:115-123 | The order of the entries within a batch does not change the outcome |
| Reveal.UnrevealedStayObserved | app.js:114-127 | A batch keeps every item that is not yet marked under observation |
| Reveal.RevealItems.constructor | app.js:105-106 | The page starts with the given `in-view` markers and nothing observed |
| Reveal.RevealItems.Setup | app.js:105-128 | With no items nothing happens. Without IntersectionObserver every item is marked and nothing is observed. Otherwise every item is observed and no marker changes |
| Reveal.RevealItems.OnIntersection | app.js:114-122 | The new markers are `AfterBatch` of the old ones. After a batch, an item is marked exactly when it was marked before or some entry reports it intersecting. It stays observed exactly when it was observed and no entry reported it. No item is ever unmarked |

## Left out

- Theme.RunKeepsResolved: holds only for runs without writes by other tabs. The page has no
  `storage` listener, so after such a write it disagrees with the stored value until its own toggle
  is used (`Theme.ForeignWriteNotApplied`, `Theme.LastToggleWins`); only the agreement of checkbox and
  classes (`Theme.RunKeepsMarkersAgree`) survives such writes.
- Storage failures are not modelled. `localStorage.getItem`, `setItem` and `removeItem`
  (app.js:24, 28-29) can throw, for example when storage is blocked or the quota is exceeded, and
  nothing catches the exception. If `setItem` throws in the toggle listener, `setThemeClass` never
  runs and the checkbox disagrees with the class, which `Theme.RunKeepsResolved` rules out. If
  `getItem` throws at start-up, the rest of the script (menu, footer, print CV, reveal, parallax)
  is never set up. The model assumes every storage call succeeds.
- The parallax arithmetic (app.js:144-162, 171-176) is left out. This covers the pointer and scroll
  offsets, `data-speed` parsing and the transforms. They are floating-point style writes, so the
  model counts recomputations instead of computing offsets.
- The reduced-motion and empty-blob early returns of `setupParallax` are left out. The model starts
  where the listeners are installed.
- `DOMContentLoaded` scheduling, the `passive` listener options and the `$`/`$$` query helpers are
  left out. The model starts with the elements already found.
- IntersectionObserver geometry (`rootMargin`, `threshold`) is left out. Each entry carries only its
  target and `isIntersecting`.
- Reveal.RevealItems.OnIntersection: `unobserve` on an item already unobserved is treated as a
  no-op, and observer batches are not restricted to observed items.
- The footer text is the `innerHTML` string as the browser serialises it. How the HTML is parsed
  and re-serialised is not modelled. The year comes from `new Date().getFullYear()` and is a
  parameter.
- PrintCv.OnPrintClick has these gaps:
  - `new URL('cv.html', location.href)` is not resolved. Its serialisation is the parameter
    `cvLocation`, which has no query or fragment. `print=1` is therefore appended as `?print=1`.
  - Under the HTML standard, `window.open` with `noopener` returns null even when the popup opens.
    In that case the same-tab fallback also runs. Whether the handle is null is a parameter, so the
    model covers both outcomes but does not decide which one the browser produces.
- The `pagehide` cleanup cancels the pending frame but does not reset `rafId`. The model keeps that:
  `rafId` stays non-zero after the page is hidden. A later tick could therefore never request a
  frame, but no listener remains to ask for one.
- `rafId === null` is modelled as 0. `requestAnimationFrame` handles are positive, so the truthiness
  test `if (rafId)` is `rafId != 0`.
