# Portfolio hero typewriter and navigation scroll tracker

This project models the two pieces of decision logic in a single-page portfolio
site:

- **The hero typewriter** (`src/components/Hero.jsx`). Three state cells drive
  it: the index of the current phrase, the text shown so far, and whether the
  text is being deleted. Each run of the effect makes one transition:
  - type one more character of the phrase, 60 ms after the run;
  - delete the last character, 40 ms after the run;
  - once the phrase is complete, flip into deleting mode after a 2500 ms pause;
  - once the text is empty in deleting mode, leave deleting mode and move on
    to the next phrase, cyclically, with no timer.

  The model is in module `Hero`. `Step` is the transition and `Delay` the wait
  before it. `NextText` is the updater handed to the text cell, built on
  `Slice`, a model of JavaScript's clamping `String.prototype.slice`. The
  class `Typewriter` holds the three cells, and its `Tick` method performs one
  effect run in place. `Run` and `Elapsed` iterate `Step` and add up the
  delays. The lemmas prove each kind of step, the prefix invariant, the exact
  trace and duration of one phrase cycle, and that playback is periodic.
- **The navigation scroll tracker** (`src/components/Navbar.jsx`). On each
  scroll event:
  - it sets `scrolled` to whether the scroll offset exceeds 50px;
  - it searches the sections `home, about, projects, contact`, in that order,
    for the first one whose element is on the page and whose bounding box
    contains the line 100px below the viewport top, edges included;
  - the active section becomes that section, and stays unchanged when none is
    found.

  The model is in module `Navbar`. `Find` is the first-match search, over a
  page given as a map from element id to its rectangle (an id missing from
  the map is an element not on the page). `OnScroll` is the handler as a
  function on the state. The class `ScrollTracker` holds the two cells, and
  its `HandleScroll` method updates them in place.

Module `Wrappers` holds the `Option` type used for the search result and for
the element lookup.

The model follows the code in these places:
- The code takes no pause after deleting. The branch for "deleting and empty"
  switches mode and advances the index at once (`src/components/Hero.jsx:43-47`).
- The 1000 ms pause value (`src/components/Hero.jsx:35`) is never used.
- The active section starts as `home`, and the search is not run at mount
  (`src/components/Navbar.jsx:6`).
- The phrase index is not re-clamped when the phrase list changes. The list
  is a fixed constant (`src/components/Hero.jsx:13-17`).

## Model

| member | source | states |
|---|---|---|
| `Hero.TypingSpeed` | src/components/Hero.jsx:34 | Defines the per-character delay: 40 ms while deleting, 60 ms while typing. |
| `Hero.PauseTime` | src/components/Hero.jsx:35 | Defines the pause value: 1000 ms while deleting, 2500 ms while typing. |
| `Hero.ClampIndex` | src/components/Hero.jsx:53-55 | A slice bound lies within the string. A non-negative bound within the string is kept; one past the end becomes the length. A negative bound counts from the end; one below minus the length becomes 0. |
| `Hero.Slice` | src/components/Hero.jsx:53-55 | `s.slice(0, end)` is a prefix of `s`, and its length is the clamped end. |
| `Hero.NextText` | src/components/Hero.jsx:51-57 | Deleting gives a prefix of the previous text, one character shorter (empty stays empty). Typing gives a prefix of the phrase, one character longer than the previous text, capped at the phrase length. This holds for any previous text. |
| `Hero.Step` | src/components/Hero.jsx:33-57 | One effect run keeps the phrase index in range. |
| `Hero.TypingStep` | src/components/Hero.jsx:50-58 | Typing before the phrase is complete keeps the index and mode. The result is a prefix of the phrase even from an arbitrary text. From a prefix, the result is a strictly longer prefix, by exactly one character. |
| `Hero.DeletingStep` | src/components/Hero.jsx:50-53 | Deleting a non-empty text removes exactly its last character. Index and mode are unchanged. |
| `Hero.FlipStep` | src/components/Hero.jsx:37-40 | When typing reaches the whole phrase, only the mode flips to deleting. Text and index are unchanged. |
| `Hero.AdvanceStep` | src/components/Hero.jsx:43-47 | When deleting reaches the empty text, typing resumes with nothing shown on phrase `(i + 1) mod n`. |
| `Hero.StepKeepsInv` | src/components/Hero.jsx:33-57 | Every transition keeps the index in range and the text a prefix of its phrase. |
| `Hero.Delay` | src/components/Hero.jsx:34-58 | The wait is 2500 ms exactly when the phrase is complete while typing. It is 0 exactly when deleting reaches the empty text. It is 40 ms exactly for a deleting step and 60 ms exactly for a typing step. It is never the 1000 ms pause. |
| `Hero.Run` | src/components/Hero.jsx:32-61 | Any number of effect runs keeps the index in range. |
| `Hero.RunKeepsInv` | src/components/Hero.jsx:32-61 | The prefix and range invariant holds after any number of effect runs. |
| `Hero.TypeOne` | src/components/Hero.jsx:55-58 | From the first `j` characters, one run shows the first `j + 1`, after 60 ms. |
| `Hero.DeleteOne` | src/components/Hero.jsx:52-53 | From the first `j > 0` characters, one run shows the first `j - 1`, after 40 ms. |
| `Hero.TypingPhase` | src/components/Hero.jsx:50-58 | `k` typing runs add `k` characters of the phrase and take `60k` ms. |
| `Hero.DeletingPhase` | src/components/Hero.jsx:50-58 | `k` deleting runs remove `k` characters and take `40k` ms. |
| `Hero.Cycle` | src/components/Hero.jsx:37-58 | From phrase `i` with nothing shown while typing, exactly `2|p| + 2` runs lead to phrase `(i + 1) mod n` with nothing shown while typing. They take `100|p| + 2500` ms. |
| `Hero.CycleTrace` | src/components/Hero.jsx:37-58 | Run by run within one cycle, the text is the first `k` characters while typing, then shrinks one character per run while deleting, then the next phrase starts. |
| `Hero.FullPhraseShownOnce` | src/components/Hero.jsx:37-58 | Within one cycle of a non-empty phrase, the whole phrase is shown only at the run that completes it and through the following pause. The typing-mode full state occurs exactly once. |
| `Hero.Cycles` | src/components/Hero.jsx:43-47 | After `m` full cycles from phrase `i`, phrase `(i + m) mod n` starts with nothing shown. |
| `Hero.Periodic` | src/components/Hero.jsx:46 | One cycle per phrase brings playback back to the starting phrase with nothing shown. |
| `Hero.InitialRecurs` | src/components/Hero.jsx:13-17 | From the initial cells, the fixed three-phrase list returns to the initial cells after one cycle of each phrase. |
| `Hero.Reachable` | src/components/Hero.jsx:6-8 | Every state reached from the initial cells satisfies the prefix and range invariant. |
| `Hero.Typewriter.constructor` | src/components/Hero.jsx:6-8 | The cells start at phrase 0, with nothing shown, typing. |
| `Hero.Typewriter.Tick` | src/components/Hero.jsx:32-61 | One effect run updates the cells in place to `Step` of the old cells and returns the delay `Delay` of the old cells. It keeps the invariant. |
| `Navbar.GetElementById` | src/components/Navbar.jsx:17 | Defines the element lookup: the element's rectangle when its id is on the page, None otherwise. |
| `Navbar.ContainsAnchor` | src/components/Navbar.jsx:20 | Defines the anchor test: top at most 100 and bottom at least 100, both edges included. |
| `Navbar.IsActive` | src/components/Navbar.jsx:16-22 | Defines the search callback: the element is present and its rectangle contains the anchor line; an absent element is never active. |
| `Navbar.Find` | src/components/Navbar.jsx:16-23 | Nothing is found exactly when no id's section is present and contains the anchor line. A found id is present and active, and every id before it is not active. |
| `Navbar.OnScroll` | src/components/Navbar.jsx:11-24 | `scrolled` is `scrollY > 50`. The active section is kept when nothing is found. Otherwise it is the section found: a declared section that contains the anchor line. It always stays among the declared sections. |
| `Navbar.FirstMatchWins` | src/components/Navbar.jsx:15-23 | The first id, in order, whose section contains the anchor line is the one found. |
| `Navbar.EarlierSectionWins` | src/components/Navbar.jsx:15-24 | When two declared sections both contain the anchor line, the later-declared one does not become active. |
| `Navbar.AbsentSkipped` | src/components/Navbar.jsx:17-22 | Removing the id of a section that is not on the page leaves the search result unchanged. |
| `Navbar.EdgesInclusive` | src/components/Navbar.jsx:20 | A section whose top or bottom lies exactly on the anchor line is active. |
| `Navbar.AdjacentOnAnchor` | src/components/Navbar.jsx:15-24 | Home ends on the anchor line and about starts on it, so both match. Home, declared first, becomes active. |
| `Navbar.MissingHomeSkipped` | src/components/Navbar.jsx:17-24 | With home not on the page, about, whose top is on the anchor line, becomes active. |
| `Navbar.ScrollThresholdStrict` | src/components/Navbar.jsx:12 | At 50px the bar is not scrolled. At 50.5px and 51px it is. |
| `Navbar.Idempotent` | src/components/Navbar.jsx:11-25 | Handling the same offset and geometry twice gives the same state as handling it once. |
| `Navbar.ScrollTracker.constructor` | src/components/Navbar.jsx:5-6 | The cells start not scrolled, with home active. |
| `Navbar.ScrollTracker.HandleScroll` | src/components/Navbar.jsx:11-25 | The handler updates the cells in place to `OnScroll` of the old cells. It keeps the active section among the declared ones. |

## Left out

- Timer scheduling and cancellation (`setTimeout`/`clearTimeout`, `src/components/Hero.jsx:39, 50, 60`). These are interactions with the host event loop. The model has the transition and its delay, not the scheduler.
  - The pause timer at line 39 is never cleared.
  - The phrase list is rebuilt on each render and appears in the effect's dependencies (line 61). So renders during the pause can queue extra mode flips. This timing race is not modelled: `Tick` is one effect run whose timer fires.
  - Every re-render clears and restarts the pending 40/60 ms timer (lines 60-61), and a re-render happens on each mouse move through `setMousePosition` (line 21) and the rebuilt phrase list. So `Elapsed`, and the `100|p| + 2500` ms of `Hero.Cycle`, are sums of the scheduled delays, not wall-clock time.
- The branch that advances to the next phrase sets its cells directly and schedules no timer. `Delay` gives it 0 ms.
- Strings: JavaScript strings are sequences of UTF-16 code units. `string` here is a sequence of characters, so each character stands for one code unit.
- Pointer samplers (`src/components/Hero.jsx:19-29`, `src/components/Navbar.jsx:27-36`). These are floating-point offset arithmetic with no decision logic.
- Scroll-linked transforms (`useScroll`/`useTransform`, `src/components/Hero.jsx:9-11`) and listener registration and removal (`src/components/Navbar.jsx:38-43`). These are library and DOM wiring. The scroll offset and the element rectangles are inputs to the model.
- Random star placement, hover state and the per-word gradient choice. These are cosmetic.
- The purely presentational components: About, Projects, Contact, Footer and App.
