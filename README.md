# Portfolio page: typing animation, scroll spy and navigation labels

The repository is a single-page portfolio written in React (`src/App.tsx`).
Almost all of it is static markup. Three pieces of it hold logic, and this
project models and verifies them:

- **Typing animation** (`TypingText`, module `Typing`). Three state cells
  hold the word index `w`, the character count `c` and the deleting flag `d`.
  They range over the fixed list `["Breaking", "Analyzing", "Securing"]`. Each
  firing of the effect does exactly one thing: type a character, start
  deleting, delete a character, or switch to the next word. The pure function
  `Step` is the specification of one firing. The class `TypingText` keeps the
  cells as fields, and its `Tick` method updates them in place and is proved
  equal to `Step`. The lemmas prove these facts:
  - the range invariant `w < 3 && c <= |Words[w]|` holds from mount on;
  - each firing's effect on the visible text;
  - each word takes `2 * |word| + 2` ticks;
  - the whole animation has period exactly 56 ticks;
  - every state in range is reached within one period.
- **Scroll spy** (`useScrollSpy`, module `ScrollSpy`). On a scroll event, the
  handler starts from the current active id. It scans the seven sections in
  order. Each section whose element exists and whose top edge is at most 120
  overwrites the candidate. `Scan` is the loop. It is proved equal to the
  reference function `LastInView`. Two lemmas characterise that function
  completely: the last section in view wins, and with none in view the
  previous id is kept. The class `Spy` holds the active id. The invariant
  "the active id is one of the sections" holds from mount on.
- **Navigation labels** (module `NavLabel`). Each label is the section id with
  its first character upper-cased. The lemmas prove four facts: the length is
  kept, capitalising is idempotent, distinct lower-case ids give distinct
  labels, and the bar shows exactly `About` … `Contact`.

Each fired timeout of the typing effect counts as one abstract tick. The scroll
event's layout is an input. It is a map from section id to the top edge of
that section's element, and an id without an element is absent from the map.

The word switch (`d && c === 0`, src/App.tsx:98-100) happens in the effect
itself, without a timer, and counts as one tick of its own. So `WordCycle`
counts `2 * 8 + 2 = 18` ticks for "Breaking".

## Model

| member | source | states |
|---|---|---|
| `Typing.Display` | src/App.tsx:118 | the visible text is a prefix of the current word, of length `c` (clamped to the word's length, as `slice` clamps) |
| `Typing.Step` | src/App.tsx:88-101 | one firing keeps `w` in range and keeps the range invariant; from a state in range it always changes the state, so the effect fires again; the word changes only from the empty deleting state, to `(w + 1) % 3` with `c = 0` and `d = false` |
| `Typing.Steps` | src/App.tsx:83-106 | any number of firings from a state in range stays in range |
| `Typing.StepEffects` | src/App.tsx:92-100 | the four branches exactly: type increments `c`, a full word sets `d`, delete decrements `c`, an empty deleting state clears `d` and advances `w` cyclically; nothing else changes |
| `Typing.StepDisplay` | src/App.tsx:92-97 | typing appends the word's next character to the visible text, deleting removes its last character, and both keep `w` and `d` |
| `Typing.StepsAdd` | src/App.tsx:88-106 | `a + b` firings are `a` firings followed by `b` firings |
| `Typing.WithinWord` | src/App.tsx:92-97 | from `(w, 0, false)`, after `j <= 2 * |word| + 1` firings the state is `(w, j, false)` while typing and `(w, 2 * |word| + 1 - j, true)` after the phase flip |
| `Typing.WordCycle` | src/App.tsx:92-100 | from `(w, 0, false)`, exactly `2 * |word| + 2` firings reach `((w + 1) % 3, 0, false)` |
| `Typing.ReachWordStart` | src/App.tsx:82-100 | every word's empty typing state is reached from mount |
| `Typing.FullCycle` | src/App.tsx:82-100 | 56 firings from mount `(0, 0, false)` return to `(0, 0, false)` |
| `Typing.CycleIsMinimal` | src/App.tsx:82-100 | no positive number of firings below 56 returns to the mount state |
| `Typing.Periodic` | src/App.tsx:82-100 | the state after `k + 56` firings equals the state after `k` |
| `Typing.EveryStateInRangeReached` | src/App.tsx:83-100 | every state satisfying the range invariant is reached from mount within fewer than 56 firings |
| `Typing.TypingText.constructor` | src/App.tsx:83-86 | mount state: `w = 0`, `c = 0`, `d = false`, cursor visible |
| `Typing.TypingText.Tick` | src/App.tsx:88-101 | the fields after one firing are `Step` of the fields before; the range invariant is kept; the cursor flag is untouched |
| `Typing.TypingText.BlinkCursor` | src/App.tsx:109-112 | the cursor flag flips and the animation cells are untouched |
| `Typing.TypingText.Text` | src/App.tsx:118 | the rendered text is a prefix of `words[w]` of length exactly `c` |
| `ScrollSpy.LastInView` | src/App.tsx:133-137 | the result is the previous id or one of the scanned ids, and if it differs from the previous id it is in view |
| `ScrollSpy.LastInViewPicksLast` | src/App.tsx:134-136 | if section `k` is in view and no later section is, the result is section `k` (sections without an element are never chosen) |
| `ScrollSpy.LastInViewKeepsPrevious` | src/App.tsx:133-137 | if no section is in view, the previous active id is returned unchanged |
| `ScrollSpy.Scan` | src/App.tsx:132-137 | the in-order overwrite loop returns exactly `LastInView(Sections, layout, active)` |
| `ScrollSpy.ActiveAfter` | src/App.tsx:127-138 | from the default `about`, after any sequence of scroll events, the active id is a member of `Sections` |
| `ScrollSpy.Spy.constructor` | src/App.tsx:130 | at mount `about` is active, which is a section |
| `ScrollSpy.Spy.OnScroll` | src/App.tsx:132-138 | the new active id is the scan's result from the old one, and it stays a member of `Sections` |
| `NavLabel.ToUpper` | src/App.tsx:173 | a lower-case letter becomes its capital (and lower-cases back to it); any other character is unchanged; the result is never lower-case |
| `NavLabel.Capitalize` | src/App.tsx:173 | (the mobile menu repeats the same expression at line 202) the label has the id's length; its first character is the upper-cased first character of the id and the rest equals `s[1..]` |
| `NavLabel.CapitalizeIdempotent` | src/App.tsx:173 | capitalising a label again changes nothing |
| `NavLabel.CapitalizeInjective` | src/App.tsx:173 | two ids starting with a lower-case letter that get the same label are the same id |
| `NavLabel.Labels` | src/App.tsx:167-204 | one label per section, in section order, for the desktop list (lines 167-175) and the mobile list (lines 196-204) alike |
| `NavLabel.LabelsDistinct` | src/App.tsx:167-175 | pairwise distinct lower-case ids give pairwise distinct labels |
| `NavLabel.NavLabels` | src/App.tsx:167-175 | the bar shows `About`, `Skills`, `Projects`, `Experience`, `Education`, `Certifications`, `Contact` |
| `NavLabel.NavLabelsDistinct` | src/App.tsx:167-175 | no two links of the bar share a label |

## Left out

- React hooks, re-rendering and effect scheduling are not modelled, only the state transitions. `setActive` only schedules a re-render, and the listener is re-registered with the new `active` after that render. A scroll event that arrives before the listener is re-registered still starts from the previous id, which matters only when no section is in view. `Spy.OnScroll` always starts from the current field `active`.
- Timer durations (160, 900 and 90 ms, and the 500 ms cursor interval) are not modelled. Timer cancellation on unmount is left out too. Each fired callback is one method call or one `Step`.
- The cursor interval and the typing effect run independently. The model offers `Tick` and `BlinkCursor` as separate methods and does not model their interleaving in time.
- DOM access (`document.getElementById`, `getBoundingClientRect`, `scrollIntoView`) and the window scroll listener are not modelled. The layout they yield is an input map.
- `ScrollSpy.Layout`: top offsets are JavaScript doubles. The model uses exact reals, so the comparison with 120 ignores floating-point rounding.
- `Typing.Step`: requires `w` to index the word list. In the source, a word index out of range would throw on `word.length`, and no reachable state has one.
- `NavLabel.ToUpper`: upper-cases ASCII letters only. JavaScript's `toUpperCase` follows Unicode case mapping, which can change non-ASCII characters and lengths. The section ids are lower-case ASCII, so the labels shown are the same.
- The click handler (`handleClick`, smooth scrolling and closing the mobile menu) and the `mobileMenuOpen` and `isClient` flags are not modelled. They are UI flags with no logic to state.
- The contact form is not modelled. It posts to a third-party endpoint and has no client-side logic.
- Animations, the static content components and the layout are not modelled. They are presentation only.
