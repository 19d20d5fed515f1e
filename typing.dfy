/** The typing-text animation of the portfolio's hero line (the `TypingText`
    component). A timer-driven effect types a word character by character,
    pauses, deletes it, and moves on to the next word of a fixed list, for ever.
    Each fired timeout (160, 900 or 90 ms) and the timer-less word switch is
    one abstract tick here. */
module Typing {

  /** The fixed word list the animation cycles through. */
  const Words: seq<string> := ["Breaking", "Analyzing", "Securing"]

  /** The three state cells of the component: word index, characters shown,
      and whether the animation is deleting. */
  datatype State = State(w: nat, c: nat, d: bool)

  /** The state at mount. */
  const Initial: State := State(0, 0, false)

  /** The range invariant: the word index is in the list and the character
      count does not exceed the current word's length. */
  predicate InRange(s: State)
  {
    s.w < |Words| && s.c <= |Words[s.w]|
  }

  /** The text shown: the first `c` characters of the current word
      (`slice` clamps a count beyond the word's end to the whole word). */
  function Display(s: State): (r: string)
    requires s.w < |Words|
    ensures r <= Words[s.w]
    ensures |r| == if s.c <= |Words[s.w]| then s.c else |Words[s.w]|
  {
    var word := Words[s.w];
    if s.c <= |word| then word[..s.c] else word
  }

  /** One tick of the effect: exactly one of type, start deleting, delete,
      or switch to the next word. A state outside the range that is not
      deleting schedules nothing, so it stays as it is. */
  function Step(s: State): (r: State)
    requires s.w < |Words|
    ensures r.w < |Words|
    ensures InRange(s) ==> InRange(r)
    // every tick from a state in range changes the state, so the effect fires again
    ensures InRange(s) ==> r != s
    // the word changes only from the empty deleting state, to the next word cyclically
    ensures r.w != s.w ==> s.d && s.c == 0 && r == State((s.w + 1) % |Words|, 0, false)
  {
    var word := Words[s.w];
    if !s.d && s.c < |word| then s.(c := s.c + 1)
    else if !s.d && s.c == |word| then s.(d := true)
    else if s.d && s.c > 0 then s.(c := s.c - 1)
    else if s.d && s.c == 0 then State((s.w + 1) % |Words|, 0, false)
    else s
  }

  /** The state after `n` ticks. */
  function Steps(s: State, n: nat): (r: State)
    requires InRange(s)
    ensures InRange(r)
    decreases n
  {
    if n == 0 then s else Steps(Step(s), n - 1)
  }

  /** The exact effect of each of the four branches of a tick. */
  lemma StepEffects(s: State)
    requires InRange(s)
    ensures !s.d && s.c < |Words[s.w]| ==> Step(s) == State(s.w, s.c + 1, false)
    ensures !s.d && s.c == |Words[s.w]| ==> Step(s) == State(s.w, s.c, true)
    ensures s.d && s.c > 0 ==> Step(s) == State(s.w, s.c - 1, true)
    ensures s.d && s.c == 0 ==> Step(s) == State((s.w + 1) % |Words|, 0, false)
  {
  }

  /** What a tick does to the visible text: typing appends the next character
      of the word, deleting removes the last one, and the phase and word are
      kept while doing either. */
  lemma StepDisplay(s: State)
    requires InRange(s)
    ensures !s.d && s.c < |Words[s.w]| ==>
              Step(s).w == s.w && !Step(s).d && Display(Step(s)) == Display(s) + [Words[s.w][s.c]]
    ensures s.d && s.c > 0 ==>
              Step(s).w == s.w && Step(s).d && Display(Step(s)) + [Words[s.w][s.c - 1]] == Display(s)
  {
    var word := Words[s.w];
    if !s.d && s.c < |word| {
      assert word[..s.c + 1] == word[..s.c] + [word[s.c]];
    } else if s.d && s.c > 0 {
      assert word[..s.c - 1] + [word[s.c - 1]] == word[..s.c];
    }
  }

  /** Ticks compose: `a + b` ticks are `a` ticks followed by `b` ticks. */
  lemma {:induction false} StepsAdd(s: State, a: nat, b: nat)
    requires InRange(s)
    ensures Steps(s, a + b) == Steps(Steps(s, a), b)
    decreases a
  {
    if a > 0 {
      var t := Step(s);
      assert Steps(s, a + b) == Steps(t, (a - 1) + b);
      assert Steps(s, a) == Steps(t, a - 1);
      StepsAdd(t, a - 1, b);
    }
  }

  /** The ticks of one word, from its empty typing state: the count rises to
      the word's length, the phase flips, and the count falls back to zero. */
  lemma {:induction false} WithinWord(w: nat, j: nat)
    requires w < |Words|
    requires j <= 2 * |Words[w]| + 1
    ensures Steps(State(w, 0, false), j) ==
              if j <= |Words[w]| then State(w, j, false)
              else State(w, 2 * |Words[w]| + 1 - j, true)
    decreases j
  {
    if j > 0 {
      var s0 := State(w, 0, false);
      WithinWord(w, j - 1);
      StepsAdd(s0, j - 1, 1);
    }
  }

  /** The number of ticks one word takes, from its empty typing state to the
      next word's. */
  function CycleLength(w: nat): nat
    requires w < |Words|
  {
    2 * |Words[w]| + 2
  }

  /** From `(w, 0, false)`, exactly `2 * |Words[w]| + 2` ticks reach the next
      word's empty typing state. */
  lemma WordCycle(w: nat)
    requires w < |Words|
    ensures Steps(State(w, 0, false), CycleLength(w)) == State((w + 1) % |Words|, 0, false)
  {
    var s0 := State(w, 0, false);
    WithinWord(w, 2 * |Words[w]| + 1);
    StepsAdd(s0, 2 * |Words[w]| + 1, 1);
  }

  /** The tick at which word `w` starts being typed, counted from mount. */
  function Offset(w: nat): nat
    requires w <= |Words|
  {
    if w == 0 then 0 else Offset(w - 1) + CycleLength(w - 1)
  }

  /** Every word of the list is reached, at tick `Offset(w)`. */
  lemma {:induction false} ReachWordStart(w: nat)
    requires w < |Words|
    ensures Steps(Initial, Offset(w)) == State(w, 0, false)
  {
    if w > 0 {
      ReachWordStart(w - 1);
      StepsAdd(Initial, Offset(w - 1), CycleLength(w - 1));
      WordCycle(w - 1);
    }
  }

  /** The whole animation has period 56: 56 ticks after mount the state is
      the mount state again. */
  lemma FullCycle()
    ensures Offset(|Words|) == 56
    ensures Steps(Initial, 56) == Initial
  {
    ReachWordStart(2);
    StepsAdd(Initial, Offset(2), CycleLength(2));
    WordCycle(2);
  }

  /** No shorter positive number of ticks returns to the mount state. */
  lemma CycleIsMinimal(k: nat)
    requires 0 < k < 56
    ensures Steps(Initial, k) != Initial
  {
    assert Offset(1) == 18 && Offset(2) == 38;
    var w: nat := if k < 18 then 0 else if k < 38 then 1 else 2;
    ReachWordStart(w);
    StepsAdd(Initial, Offset(w), k - Offset(w));
    WithinWord(w, k - Offset(w));
  }

  /** The animation repeats: the state at tick `k + 56` is the state at `k`. */
  lemma Periodic(k: nat)
    ensures Steps(Initial, k + 56) == Steps(Initial, k)
  {
    FullCycle();
    StepsAdd(Initial, 56, k);
  }

  /** The tick within one cycle at which the state `s` is shown. */
  function TickOf(s: State): nat
    requires InRange(s)
  {
    Offset(s.w) + if !s.d then s.c else 2 * |Words[s.w]| + 1 - s.c
  }

  /** The range invariant describes exactly the states the animation shows:
      every state in range is reached from mount within one cycle. */
  lemma EveryStateInRangeReached(s: State)
    requires InRange(s)
    ensures TickOf(s) < 56
    ensures Steps(Initial, TickOf(s)) == s
  {
    FullCycle();
    assert Offset(1) == 18 && Offset(2) == 38;
    ReachWordStart(s.w);
    var j := if !s.d then s.c else 2 * |Words[s.w]| + 1 - s.c;
    StepsAdd(Initial, Offset(s.w), j);
    WithinWord(s.w, j);
  }

  /** The component: its three animation cells and the blinking cursor flag. */
  class TypingText {
    var w: nat
    var c: nat
    var d: bool
    var showCursor: bool

    /** The animation cells as a state value. */
    function Current(): State
      reads this
    {
      State(w, c, d)
    }

    predicate Valid()
      reads this
    {
      InRange(Current())
    }

    /** Mount: first word, nothing typed, typing, cursor visible. */
    constructor ()
      ensures Valid()
      ensures Current() == Initial && showCursor
    {
      w, c, d := 0, 0, false;
      showCursor := true;
    }

    /** One firing of the typing effect; the cursor flag is not touched. */
    method Tick()
      requires Valid()
      modifies this
      ensures Valid()
      ensures Current() == Step(old(Current()))
      ensures showCursor == old(showCursor)
    {
      var word := Words[w];
      if !d && c < |word| {
        c := c + 1;
      } else if !d && c == |word| {
        d := true;
      } else if d && c > 0 {
        c := c - 1;
      } else if d && c == 0 {
        d := false;
        w := (w + 1) % |Words|;
      }
    }

    /** One firing of the cursor interval: the cursor flag flips and the
        animation cells are untouched. */
    method BlinkCursor()
      modifies this
      ensures showCursor == !old(showCursor)
      ensures Current() == old(Current())
    {
      showCursor := !showCursor;
    }

    /** The text the component renders. */
    function Text(): (r: string)
      reads this
      requires Valid()
      ensures r <= Words[w] && |r| == c
    {
      Display(Current())
    }
  }
}
