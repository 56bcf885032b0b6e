# Site UI behaviours: active navigation marker and signal cards

This project models two pieces of the site's shared front-end script,
`scripts/ui.js`, and proves properties about them.

- **Active navigation marker** (`initActiveNav`). Each `.nav .nav-link`
  anchor is a `Nav.Link` record: its href, its `data-keep-active` flag, its
  `aria-current` attribute and its `is-current` class. The anchors, in
  document order, form an `array<Link>` that `Nav.InitActiveNav` updates in
  place. First it clears the marker on every link. Then `Nav.FindBest` scans
  left to right, keeping the last candidate. Last, the winner is marked. The
  specification function `Nav.ActiveNav` gives the resulting state, and the
  lemmas beside it prove the following:
  - at most one link is marked;
  - ineligible links are never chosen;
  - the last match wins, both off and on the home page;
  - running the marker twice gives the same state as running it once.
- **Signal cards** (`initSignals`). A `.signal-card` is a `Signals.Card`
  record: its category, its inline display, its "More" button (which holds
  `aria-expanded` and the chevron text) and its detail panel. A
  `.signals-pill` is a `Signals.Pill` record. The class
  `Signals.SignalsPanel` holds what the `initSignals` closure captures. Each
  of its methods is one of the closure's functions or click handlers. Each
  method's postcondition ties the new arrays to a specification function:
  `Filtered`, `ActivateOnly`, `SetExpandedCard`, `Toggle` or `SetShown`. The
  lemmas prove properties of those functions:
  - filtering is exact, and a pill's filter matches card categories up to
    ASCII letter case;
  - a pill click leaves exactly one pill active;
  - `setExpanded` keeps the button and the panel in agreement;
  - toggling twice restores a card whose button and panel agree, and so
    restores any card once it has been clicked;
  - expand-all and collapse-all skip hidden cards.

The browser's string built-ins that the script calls are modelled in module
`Text`: `trim`, with the exact ECMAScript white-space set;
`toLowerCase`, for ASCII letters only; `startsWith`; and `endsWith`.
`Wrappers.Option` stands for an attribute that may be absent.

The URL constructor `new URL(href, location.origin)` is a parameter,
`resolve: string -> Option<string>`. It returns the URL's pathname, or
`None` where the constructor throws. The page's `location.pathname` is also
a parameter.

Two behaviours of the code are worth stating because a reader might expect
otherwise:
- On the home page the code does not suppress the marker. It marks the last
  eligible link whose path is `/` or ends in `/index.html`
  (scripts/ui.js:104). `Nav.OnHomeMarksLastHomeLink` states this behaviour,
  and `Nav.HomePageMarksHomeLink` shows it on a one-link example.
- At start-up the code only applies the filter "all" (scripts/ui.js:185). It
  does not collapse the cards; each card keeps the expansion its markup
  gives it. `Signals.SignalsPanel.constructor` states this.

## Model

| member | source | states |
|---|---|---|
| `Text.TrimStartSpec` | scripts/ui.js:92 | dropping leading white space keeps the suffix that starts at the first non-space, and removes only white space |
| `Text.TrimEndSpec` | scripts/ui.js:92 | dropping trailing white space keeps the prefix that ends at the last non-space, and removes only white space |
| `Text.TrimSpec` | scripts/ui.js:92-93 | a trimmed href is empty exactly when the href is all white space; otherwise it starts and ends with a non-space |
| `Text.TrimIdempotent` | scripts/ui.js:92 | trimming twice is trimming once |
| `Text.LowerSpec` | scripts/ui.js:78 | lower-casing leaves no upper-case ASCII letter, keeps every other character, and turns each upper-case letter into its own lower-case letter |
| `Text.LowerEqIffEqIgnoreCase` | scripts/ui.js:126-127 | two strings lower-case to the same string if and only if they are equal up to ASCII letter case |
| `Text.LowerIdempotent` | scripts/ui.js:102 | lower-casing twice is lower-casing once |
| `Nav.Normalize` | scripts/ui.js:78 | a normalized page path is never empty, and an empty pathname becomes `/` |
| `Nav.NormalizeSpec` | scripts/ui.js:78 | a non-empty pathname normalizes to a string with no upper-case letter that equals it up to ASCII case |
| `Nav.NormalizeIdempotent` | scripts/ui.js:78 | normalizing a path twice gives the same result as normalizing it once |
| `Nav.LastCandidate` | scripts/ui.js:87-106 | the chosen index is a candidate and no later link is one; None exactly when no link is a candidate |
| `Nav.FindBest` | scripts/ui.js:87-106 | the left-to-right scan that reassigns `best` ends with the last candidate in document order, or none |
| `Nav.InitActiveNav` | scripts/ui.js:74-112 | the links array after the operation is `ActiveNav` of the old array: every marker cleared, then the last candidate marked |
| `Nav.AtMostOneMarked` | scripts/ui.js:82-111 | every link, keep-active ones included, is cleared unless it is the winner; at most one link carries the marker, and it carries both `aria-current="page"` and `is-current`; nothing else of a link changes |
| `Nav.MarkedIsEligible` | scripts/ui.js:90-100 | a marked link is not keep-active, and its trimmed href is non-empty, starts with neither `http` nor `mailto:`, and parses as a URL |
| `Nav.OffHomeMarksLastExactMatch` | scripts/ui.js:78-108 | off the home page, a link is marked if and only if it is the last eligible link whose lower-cased path equals the lower-cased page path; with no such link, none is marked |
| `Nav.OnHomeMarksLastHomeLink` | scripts/ui.js:79-108 | on a home path, a link is marked if and only if it is the last eligible link whose path is `/` or ends in `/index.html` |
| `Nav.ActiveNavIdempotent` | scripts/ui.js:82-111 | running the marker a second time on its own result changes nothing |
| `Nav.HomePageMarksHomeLink` | scripts/ui.js:104 | on the page `/`, a single link to `/` is marked |
| `Signals.FilterDisplaysExactly` | scripts/ui.js:124-130 | after filtering, a card is displayed if and only if the filter is "all" or equals the card's lower-cased `data-type`; display becomes `""` or `"none"`; the category, button and panel are unchanged |
| `Signals.FilterAllDisplaysEvery` | scripts/ui.js:184-185 | the filter "all" displays every card |
| `Signals.FilterLastWins` | scripts/ui.js:124-130 | filtering twice leaves the state the second filter alone gives |
| `Signals.PillFilterCaseInsensitive` | scripts/ui.js:149 | after a click on a pill with a non-empty `data-filter`, a card is displayed if and only if that filter is "all" up to ASCII case, or the card's `data-type` equals it up to ASCII case; a pill with no or an empty `data-filter` shows every card |
| `Signals.ActivateOnlyExactlyOne` | scripts/ui.js:147-148 | after a pill click, a pill is active if and only if it is the clicked one; no pill's filter changes |
| `Signals.SetExpandedSyncs` | scripts/ui.js:132-142 | on a card with a button and a panel, `aria-expanded` ends up `"true"` exactly when the panel is not hidden, the chevron (if any) matches, and the card is open as requested; a card missing either is unchanged; category, display and which of button, panel and chevron the card has are kept |
| `Signals.ToggleFlips` | scripts/ui.js:161-162 | a "More" click flips whether a card with a panel is open |
| `Signals.ToggleTwiceRestores` | scripts/ui.js:161-162 | two "More" clicks restore a card whose button and panel agree |
| `Signals.ToggleTwiceAfterToggle` | scripts/ui.js:154-163 | after any first click, two further clicks return the card to the state the first click left |
| `Signals.SetShownSkipsHidden` | scripts/ui.js:165-182 | expand-all and collapse-all leave cards with display `"none"` untouched, open or close every other card that has a button and a panel, leave a card missing either untouched, and never change display, category or which of button, panel and chevron a card has |
| `Signals.SetShownLastWins` | scripts/ui.js:165-182 | after an expand-all and a collapse-all, only the second click matters |
| `Signals.SignalsPanel.constructor` | scripts/ui.js:115-186 | handlers are attached exactly when there is at least one card and one pill; in that case the filter "all" is applied, and otherwise the cards are untouched |
| `Signals.SignalsPanel.ApplyFilter` | scripts/ui.js:124-130 | the cards array becomes `Filtered` of the old one |
| `Signals.SignalsPanel.SetExpanded` | scripts/ui.js:132-142 | only card `i` changes, to `SetExpandedCard` of its old value |
| `Signals.SignalsPanel.ClickPill` | scripts/ui.js:145-151 | the pills become `ActivateOnly` of the old pills, and the cards are filtered by the clicked pill's filter; without handlers nothing changes |
| `Signals.SignalsPanel.ClickDocument` | scripts/ui.js:154-163 | a click on a card's "More" button toggles that card and no other; any other click changes nothing |
| `Signals.SignalsPanel.SetAllShown` | scripts/ui.js:166-182 | the cards array becomes `SetShown` of the old one |
| `Signals.SignalsPanel.ClickExpandAll` | scripts/ui.js:166-173 | with handlers and an `#expandAll` button, the displayed cards are expanded; otherwise nothing changes |
| `Signals.SignalsPanel.ClickCollapseAll` | scripts/ui.js:175-182 | with handlers and a `#collapseAll` button, the displayed cards are collapsed; otherwise nothing changes |

## Left out

- `initPartials` (scripts/ui.js:46-69) is left out. It is an asynchronous fetch of two HTML fragments, with failures swallowed: network I/O and concurrency.
- `initBackToTop` (scripts/ui.js:25-42) is left out. It depends on the window's scroll position, scroll events and smooth scrolling.
- `initYear` (scripts/ui.js:15-21) is left out. It reads the wall clock.
- scripts/ui.js has no mobile navigation toggle, so none is modelled.
- DOM querying and event wiring are left out: `$`, `$$`, `closest`, `addEventListener`, `DOMContentLoaded` and the boot order. The matched elements become arrays of records, and each handler becomes a method that the caller invokes.
- `new URL(href, location.origin)` is a parameter (`resolve`). The model proves nothing about how URLs are parsed.
- Text.Lower: lower-cases ASCII letters only. JavaScript's `toLowerCase` uses full Unicode case mapping, which is not modelled.
- Signals.SignalsPanel.ClickDocument: the clicked button is taken to be the card's first `.signal-more`. A card with several such buttons, where the clicked one's `aria-expanded` is read but the first one is updated, is not modelled.
- Signals.SignalsPanel.ClickDocument: a click is addressed by an index into the cards captured at start-up. The source also toggles cards added to the page later, which the model does not capture.
- Element identity and aliasing between records are not modelled: a card is a value in an array, not a shared DOM node.
