/**
 * The phrase typewriter of the hero section.
 *
 * Three state cells (the index of the current phrase, the text shown so far,
 * and whether the text is being deleted) are advanced by one transition each
 * time the effect runs. A transition either types one more character of the
 * current phrase, deletes the last character, flips into deleting mode once
 * the phrase is complete (after a 2500 ms pause), or, once the text is empty
 * in deleting mode, leaves deleting mode and moves on to the next phrase.
 */
module Hero {

  /** A snapshot of the three state cells. */
  datatype State = State(index: nat, text: string, deleting: bool)

  /** The phrases shown, in playback order. */
  const Phrases: seq<string> := [
    "Crafting modern digital experiences that speak for your brand",
    "Building stunning websites that leave a lasting impression",
    "Transforming ideas into beautiful, functional web solutions"
  ]

  /** The cells' initial values: first phrase, nothing shown, typing. */
  const Initial: State := State(0, "", false)

  /** Delay before a one-character step, in milliseconds. */
  function TypingSpeed(deleting: bool): nat {
    if deleting then 40 else 60
  }

  /** Pause before a mode flip, in milliseconds. */
  function PauseTime(deleting: bool): nat {
    if deleting then 1000 else 2500
  }

  /** The state invariant: the index is in range and the text is a prefix of its phrase. */
  predicate Inv(phrases: seq<string>, s: State) {
    s.index < |phrases| && s.text <= phrases[s.index]
  }

  /** A relative index of `String.prototype.slice`: negative counts from the end; clamped to the string. */
  function ClampIndex(k: int, len: nat): (r: nat)
    ensures r <= len
    ensures 0 <= k <= len ==> r == k
    ensures k < 0 && len + k >= 0 ==> r == len + k
    ensures k > len ==> r == len
    ensures len + k < 0 ==> r == 0
  {
    if k < 0 then (if len + k < 0 then 0 else len + k)
    else if k > len then len
    else k
  }

  /**
   * `s.slice(begin, end)`: the characters between the clamped bounds, empty
   * when they cross. The contract states the prefix form `s.slice(0, end)`,
   * the only form the updater uses.
   */
  function Slice(s: string, begin: int, end: int): (r: string)
    ensures begin == 0 ==> r <= s && |r| == ClampIndex(end, |s|)
  {
    var from, to := ClampIndex(begin, |s|), ClampIndex(end, |s|);
    if from < to then s[from..to] else ""
  }

  /**
   * The updater handed to the text cell: in deleting mode drop the last
   * character, otherwise take one more character of the phrase. Slicing
   * clamps, so the typed result is a prefix of the phrase whatever `prev` is.
   */
  function NextText(deleting: bool, phrase: string, prev: string): (r: string)
    ensures deleting ==> r <= prev && |r| == if prev == "" then 0 else |prev| - 1
    ensures !deleting ==> r <= phrase && |r| == if |prev| < |phrase| then |prev| + 1 else |phrase|
  {
    if deleting then Slice(prev, 0, -1) else Slice(phrase, 0, |prev| + 1)
  }

  /** One run of the effect: the transition it eventually applies to the cells. */
  function Step(phrases: seq<string>, s: State): (r: State)
    requires s.index < |phrases|
    ensures r.index < |phrases|
  {
    var phrase := phrases[s.index];
    if !s.deleting && s.text == phrase then
      s.(deleting := true)
    else if s.deleting && s.text == "" then
      State((s.index + 1) % |phrases|, "", false)
    else
      s.(text := NextText(s.deleting, phrase, s.text))
  }

  /**
   * Typing, while the phrase is not complete: one more character, still a
   * prefix of the phrase; index and mode unchanged. Slicing clamps, so even
   * from a text that is not a prefix the result is one.
   */
  lemma TypingStep(phrases: seq<string>, s: State)
    requires s.index < |phrases| && !s.deleting && s.text != phrases[s.index]
    ensures var r := Step(phrases, s);
            r.index == s.index && !r.deleting && Inv(phrases, r)
            && (s.text <= phrases[s.index] ==> s.text < r.text && |r.text| == |s.text| + 1)
  {
  }

  /** Deleting a non-empty text: exactly the last character goes; index and mode unchanged. */
  lemma DeletingStep(phrases: seq<string>, s: State)
    requires s.index < |phrases| && s.deleting && s.text != ""
    ensures var r := Step(phrases, s);
            r.index == s.index && r.deleting && r.text + [s.text[|s.text| - 1]] == s.text
  {
    var r := Step(phrases, s);
    assert r.text <= s.text && |r.text| == |s.text| - 1;
    assert r.text == s.text[..|s.text| - 1];
  }

  /** The phrase complete while typing: only the mode flips. */
  lemma FlipStep(phrases: seq<string>, s: State)
    requires s.index < |phrases| && !s.deleting && s.text == phrases[s.index]
    ensures Step(phrases, s) == State(s.index, s.text, true)
  {
  }

  /** Nothing left while deleting: typing resumes, with nothing shown, on the next phrase, cyclically. */
  lemma AdvanceStep(phrases: seq<string>, s: State)
    requires s.index < |phrases| && s.deleting && s.text == ""
    ensures Step(phrases, s) == State((s.index + 1) % |phrases|, "", false)
  {
  }

  /** Every transition keeps the index in range and the text a prefix of its phrase. */
  lemma StepKeepsInv(phrases: seq<string>, s: State)
    requires Inv(phrases, s)
    ensures Inv(phrases, Step(phrases, s))
  {
    if s.deleting && s.text != "" {
      DeletingStep(phrases, s);
    } else if !s.deleting && s.text != phrases[s.index] {
      TypingStep(phrases, s);
    }
  }

  /**
   * The delay the effect waits before applying Step: the pause before a mode
   * flip, nothing before moving to the next phrase (that branch sets the
   * cells directly), otherwise the per-character speed.
   */
  function Delay(phrases: seq<string>, s: State): (ms: nat)
    requires s.index < |phrases|
    ensures ms != PauseTime(true)
    ensures ms == PauseTime(false) <==> !s.deleting && s.text == phrases[s.index]
    ensures ms == 0 <==> s.deleting && s.text == ""
    ensures ms == TypingSpeed(true) <==> s.deleting && s.text != ""
    ensures ms == TypingSpeed(false) <==> !s.deleting && s.text != phrases[s.index]
  {
    var typingSpeed := TypingSpeed(s.deleting);
    var pauseTime := PauseTime(s.deleting);
    if !s.deleting && s.text == phrases[s.index] then pauseTime
    else if s.deleting && s.text == "" then 0
    else typingSpeed
  }

  /** The state after `k` effect runs. */
  function Run(phrases: seq<string>, s: State, k: nat): (r: State)
    requires s.index < |phrases|
    ensures r.index < |phrases|
    decreases k
  {
    if k == 0 then s else Run(phrases, Step(phrases, s), k - 1)
  }

  /** The invariant holds after any number of transitions. */
  lemma {:induction false} RunKeepsInv(phrases: seq<string>, s: State, k: nat)
    requires Inv(phrases, s)
    ensures Inv(phrases, Run(phrases, s, k))
    decreases k
  {
    if k > 0 {
      StepKeepsInv(phrases, s);
      RunKeepsInv(phrases, Step(phrases, s), k - 1);
    }
  }

  /** The total time, in milliseconds, the first `k` effect runs wait. */
  function Elapsed(phrases: seq<string>, s: State, k: nat): nat
    requires s.index < |phrases|
    decreases k
  {
    if k == 0 then 0 else Delay(phrases, s) + Elapsed(phrases, Step(phrases, s), k - 1)
  }

  /** Number of effect runs in one cycle of phrase `i`: type it, flip, delete it, advance. */
  function CycleLength(phrases: seq<string>, i: nat): nat
    requires i < |phrases|
  {
    2 * |phrases[i]| + 2
  }

  /** Number of effect runs in `m` consecutive cycles starting at phrase `i`. */
  function CycleSteps(phrases: seq<string>, i: nat, m: nat): nat
    requires i < |phrases|
    decreases m
  {
    if m == 0 then 0
    else CycleLength(phrases, i) + CycleSteps(phrases, (i + 1) % |phrases|, m - 1)
  }

  /** From the first `j` characters of a phrase, typing shows the first `j + 1`. */
  lemma TypeOne(phrases: seq<string>, i: nat, j: nat)
    requires i < |phrases| && j < |phrases[i]|
    ensures Step(phrases, State(i, phrases[i][..j], false)) == State(i, phrases[i][..j + 1], false)
    ensures Delay(phrases, State(i, phrases[i][..j], false)) == TypingSpeed(false)
  {
    var p := phrases[i];
    var t := NextText(false, p, p[..j]);
    assert t <= p && |t| == j + 1;
  }

  /** From the first `j > 0` characters of a phrase, deleting shows the first `j - 1`. */
  lemma DeleteOne(phrases: seq<string>, i: nat, j: nat)
    requires i < |phrases| && 0 < j <= |phrases[i]|
    ensures Step(phrases, State(i, phrases[i][..j], true)) == State(i, phrases[i][..j - 1], true)
    ensures Delay(phrases, State(i, phrases[i][..j], true)) == TypingSpeed(true)
  {
    var p := phrases[i];
    var t := NextText(true, p, p[..j]);
    assert t <= p[..j] && |t| == j - 1;
  }

  /** Typing phase: `k` runs from the first `j` characters type `k` more, 60 ms each. */
  lemma {:induction false} TypingPhase(phrases: seq<string>, i: nat, j: nat, k: nat, m: nat)
    requires i < |phrases| && j + k <= |phrases[i]|
    ensures Run(phrases, State(i, phrases[i][..j], false), k + m)
         == Run(phrases, State(i, phrases[i][..j + k], false), m)
    ensures Elapsed(phrases, State(i, phrases[i][..j], false), k + m)
         == 60 * k + Elapsed(phrases, State(i, phrases[i][..j + k], false), m)
    decreases k
  {
    if k > 0 {
      TypeOne(phrases, i, j);
      TypingPhase(phrases, i, j + 1, k - 1, m);
    }
  }

  /** Deleting phase: `k` runs from the first `j` characters delete `k` of them, 40 ms each. */
  lemma {:induction false} DeletingPhase(phrases: seq<string>, i: nat, j: nat, k: nat, m: nat)
    requires i < |phrases| && k <= j <= |phrases[i]|
    ensures Run(phrases, State(i, phrases[i][..j], true), k + m)
         == Run(phrases, State(i, phrases[i][..j - k], true), m)
    ensures Elapsed(phrases, State(i, phrases[i][..j], true), k + m)
         == 40 * k + Elapsed(phrases, State(i, phrases[i][..j - k], true), m)
    decreases k
  {
    if k > 0 {
      DeleteOne(phrases, i, j);
      DeletingPhase(phrases, i, j - 1, k - 1, m);
    }
  }

  /**
   * A full cycle: from phrase `i` with nothing shown, typing, 2|p| + 2 runs
   * lead to the next phrase with nothing shown, typing, after 100|p| + 2500 ms.
   */
  lemma Cycle(phrases: seq<string>, i: nat, m: nat)
    requires i < |phrases|
    ensures Run(phrases, State(i, "", false), CycleLength(phrases, i) + m)
         == Run(phrases, State((i + 1) % |phrases|, "", false), m)
    ensures Elapsed(phrases, State(i, "", false), CycleLength(phrases, i) + m)
         == 100 * |phrases[i]| + PauseTime(false) + Elapsed(phrases, State((i + 1) % |phrases|, "", false), m)
  {
    var p := phrases[i];
    var n := |p|;
    assert p[..0] == "" && p[..n] == p;
    TypingPhase(phrases, i, 0, n, n + 2 + m);
    var full := State(i, p, false);
    assert Step(phrases, full) == State(i, p, true);
    assert n + 2 + m - 1 == n + (1 + m);
    DeletingPhase(phrases, i, n, n, 1 + m);
    var empty := State(i, "", true);
    assert Step(phrases, empty) == State((i + 1) % |phrases|, "", false);
  }

  /** The states of one cycle, run by run: the text grows to the phrase, then shrinks to nothing. */
  lemma CycleTrace(phrases: seq<string>, i: nat, k: nat)
    requires i < |phrases| && k <= CycleLength(phrases, i)
    ensures var p := phrases[i];
            Run(phrases, State(i, "", false), k)
            == if k <= |p| then State(i, p[..k], false)
               else if k <= 2 * |p| + 1 then State(i, p[..2 * |p| + 1 - k], true)
               else State((i + 1) % |phrases|, "", false)
  {
    var p := phrases[i];
    var n := |p|;
    assert p[..0] == "" && p[..n] == p;
    if k <= n {
      TypingPhase(phrases, i, 0, k, 0);
    } else if k <= 2 * n + 1 {
      TypingPhase(phrases, i, 0, n, k - n);
      assert Step(phrases, State(i, p, false)) == State(i, p, true);
      DeletingPhase(phrases, i, n, k - n - 1, 0);
    } else {
      Cycle(phrases, i, 0);
    }
  }

  /**
   * Within one cycle of a non-empty phrase the whole phrase is shown once:
   * at the run that completes it and through the pause that follows.
   */
  lemma FullPhraseShownOnce(phrases: seq<string>, i: nat, k: nat)
    requires i < |phrases| && |phrases[i]| > 0 && k <= CycleLength(phrases, i)
    ensures Run(phrases, State(i, "", false), k).text == phrases[i]
            <==> k == |phrases[i]| || k == |phrases[i]| + 1
    ensures Run(phrases, State(i, "", false), k) == State(i, phrases[i], false)
            <==> k == |phrases[i]|
  {
    CycleTrace(phrases, i, k);
  }

  /** A positive multiple of `n` is at least `n`. */
  lemma MulAtLeast(n: nat, d: int)
    requires d > 0
    ensures n * d >= n
  {
  }

  /** Adding one period does not change a remainder. */
  lemma ModAddPeriod(x: nat, n: nat)
    requires n > 0
    ensures (x + n) % n == x % n
  {
    var a := x + n;
    var d := a / n - x / n - 1;
    assert a == n * (a / n) + a % n;
    assert x == n * (x / n) + x % n;
    assert n * d == n * (a / n) - n * (x / n) - n;
    assert n * d == x % n - a % n;
    if d > 0 {
      MulAtLeast(n, d);
    }
  }

  /** Advancing the index once and then `m - 1` more times is advancing it `m` times. */
  lemma ModNext(i: nat, m: nat, n: nat)
    requires i < n && m > 0
    ensures ((i + 1) % n + (m - 1)) % n == (i + m) % n
  {
    if i + 1 == n {
      assert (i + 1) % n == 0;
      ModAddPeriod(m - 1, n);
    } else {
      assert (i + 1) % n == i + 1;
    }
  }

  /** After `m` cycles from phrase `i`, phrase `(i + m) mod |phrases|` starts, with nothing shown. */
  lemma {:induction false} Cycles(phrases: seq<string>, i: nat, m: nat)
    requires i < |phrases|
    ensures Run(phrases, State(i, "", false), CycleSteps(phrases, i, m))
         == State((i + m) % |phrases|, "", false)
    decreases m
  {
    if m > 0 {
      var next := (i + 1) % |phrases|;
      Cycle(phrases, i, CycleSteps(phrases, next, m - 1));
      Cycles(phrases, next, m - 1);
      ModNext(i, m, |phrases|);
    }
  }

  /** Playback is periodic: one cycle per phrase brings the index back to where it started. */
  lemma Periodic(phrases: seq<string>, i: nat)
    requires i < |phrases|
    ensures Run(phrases, State(i, "", false), CycleSteps(phrases, i, |phrases|)) == State(i, "", false)
  {
    var n := |phrases|;
    ModAddPeriod(i, n);
    assert (i + n) % n == i;
    Cycles(phrases, i, n);
  }

  /** The fixed phrase list returns to the initial cells after one cycle of each phrase. */
  lemma InitialRecurs()
    ensures Run(Phrases, Initial, CycleSteps(Phrases, 0, |Phrases|)) == Initial
  {
    Periodic(Phrases, 0);
  }

  /** Every state the cells reach from their initial values keeps the invariant. */
  lemma Reachable(k: nat)
    ensures Inv(Phrases, Run(Phrases, Initial, k))
  {
    RunKeepsInv(Phrases, Initial, k);
  }

  /** The three state cells, advanced in place by one effect run per Tick. */
  class Typewriter {
    var currentPhraseIndex: nat
    var displayedText: string
    var isDeleting: bool

    function Snapshot(): State
      reads this
    {
      State(currentPhraseIndex, displayedText, isDeleting)
    }

    ghost predicate Valid()
      reads this
    {
      Inv(Phrases, Snapshot())
    }

    constructor ()
      ensures Valid() && Snapshot() == Initial
    {
      currentPhraseIndex := 0;
      displayedText := "";
      isDeleting := false;
    }

    /** One effect run; `delay` is how long it waits before changing the cells. */
    method Tick() returns (delay: nat)
      requires Valid()
      modifies this
      ensures Valid()
      ensures Snapshot() == Step(Phrases, old(Snapshot()))
      ensures delay == Delay(Phrases, old(Snapshot()))
    {
      var currentPhrase := Phrases[currentPhraseIndex];
      var typingSpeed := TypingSpeed(isDeleting);
      var pauseTime := PauseTime(isDeleting);

      if !isDeleting && displayedText == currentPhrase {
        delay := pauseTime;
        isDeleting := true;
        return;
      }

      if isDeleting && displayedText == "" {
        delay := 0;
        isDeleting := false;
        currentPhraseIndex := (currentPhraseIndex + 1) % |Phrases|;
        return;
      }

      delay := typingSpeed;
      displayedText := NextText(isDeleting, currentPhrase, displayedText);
    }
  }
}
