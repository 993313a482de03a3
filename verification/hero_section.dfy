/** The boot-sequence typewriter of the hero section (components/portfolio/hero-section.tsx).

    One mount owns a script of lines, a playback cursor `(lineIndex, charIndex, text)`,
    a typing interval, a cursor-blink interval and the settle timeouts that the typing
    interval schedules when the script is exhausted. Every timer firing is an event;
    wall-clock periods (30, 530 and 500 ms) are not modelled, only the order of firings. */
module HeroSection {
  import opened Text

  // ---------------------------------------------------------------------------
  // The text a script leaves behind
  // ---------------------------------------------------------------------------

  /** Every line followed by one "\n", the last line included: the text the typing
      interval has published once it reaches its terminal branch. */
  function Rendered(lines: seq<string>): string
  {
    if |lines| == 0 then "" else Rendered(lines[..|lines| - 1]) + lines[|lines| - 1] + "\n"
  }

  /** Total number of characters over all lines. */
  function SumLengths(lines: seq<string>): nat
  {
    if |lines| == 0 then 0 else SumLengths(lines[..|lines| - 1]) + |lines[|lines| - 1]|
  }

  lemma {:induction false} RenderedAppend(a: seq<string>, b: seq<string>)
    ensures Rendered(a + b) == Rendered(a) + Rendered(b)
    decreases |b|
  {
    if |b| == 0 {
      assert a + b == a;
    } else {
      var b' := b[..|b| - 1];
      assert (a + b)[..|a + b| - 1] == a + b';
      RenderedAppend(a, b');
    }
  }

  /** The number of characters the typewriter publishes is the number of script
      characters plus one newline per line. */
  lemma {:induction false} RenderedLength(lines: seq<string>)
    ensures |Rendered(lines)| == SumLengths(lines) + |lines|
  {
    if |lines| > 0 {
      RenderedLength(lines[..|lines| - 1]);
    }
  }

  // ---------------------------------------------------------------------------
  // The playback cursor and the body of the typing interval
  // ---------------------------------------------------------------------------

  /** The closure variables of the typing effect. */
  datatype Playback = Playback(lineIndex: nat, charIndex: nat, text: string)

  /** The cursor every run of the typing effect starts from. */
  const Start := Playback(0, 0, "")

  /** The typing-state invariant: the text is the first `lineIndex` lines, each followed
      by "\n", and then the first `charIndex` characters of the current line. */
  predicate Valid(lines: seq<string>, p: Playback)
  {
    if p.lineIndex < |lines| then
      p.charIndex <= |lines[p.lineIndex]| &&
      p.text == Rendered(lines[..p.lineIndex]) + lines[p.lineIndex][..p.charIndex]
    else
      p.lineIndex == |lines| && p.charIndex == 0 && p.text == Rendered(lines)
  }

  /** `(lineIndex, charIndex)` strictly increases in lexicographic order from `p` to `q`. */
  predicate LexBefore(p: Playback, q: Playback)
  {
    p.lineIndex < q.lineIndex || (p.lineIndex == q.lineIndex && p.charIndex < q.charIndex)
  }

  /** One firing of the typing interval, on the cursor alone: `Some` of the new cursor
      for a character or newline tick, `None` for the terminal tick. */
  function Advance(lines: seq<string>, p: Playback): (r: Option<Playback>)
    ensures r.None? <==> p.lineIndex >= |lines|
    ensures r.Some? ==> LexBefore(p, r.value)
    ensures r.Some? ==> |r.value.text| == |p.text| + 1 && r.value.text[..|p.text|] == p.text
    ensures r.Some? && Valid(lines, p) ==> Valid(lines, r.value)
  {
    if p.lineIndex < |lines| then
      var line := lines[p.lineIndex];
      if p.charIndex < |line| then
        var q := Playback(p.lineIndex, p.charIndex + 1, p.text + [line[p.charIndex]]);
        assert line[..p.charIndex + 1] == line[..p.charIndex] + [line[p.charIndex]];
        Some(q)
      else
        var q := Playback(p.lineIndex + 1, 0, p.text + "\n");
        assert lines[..p.lineIndex + 1][..p.lineIndex] == lines[..p.lineIndex];
        assert !Valid(lines, p) || line[..p.charIndex] == line;
        if p.lineIndex + 1 == |lines| then assert lines[..p.lineIndex + 1] == lines; Some(q)
        else Some(q)
    else
      None
  }

  lemma RenderedSingle(line: string)
    ensures Rendered([line]) == line + "\n"
  {
    assert [line][..0] == [];
  }

  /** The final text splits around any line. */
  lemma RenderedSplit(lines: seq<string>, i: nat)
    requires i < |lines|
    ensures Rendered(lines) == Rendered(lines[..i]) + (lines[i] + "\n" + Rendered(lines[i + 1..]))
  {
    SplitAt(lines, i);
    RenderedCons(lines[i], lines[i + 1..]);
    RenderedAppend(lines[..i], [lines[i]] + lines[i + 1..]);
  }

  lemma SplitAt(lines: seq<string>, i: nat)
    requires i < |lines|
    ensures lines == lines[..i] + ([lines[i]] + lines[i + 1..])
  {
    assert lines[i..] == [lines[i]] + lines[i + 1..];
    assert lines == lines[..i] + lines[i..];
  }

  /** Rendering a line in front of others puts its text and newline in front. */
  lemma RenderedCons(line: string, after: seq<string>)
    ensures Rendered([line] + after) == line + "\n" + Rendered(after)
  {
    RenderedAppend([line], after);
    RenderedSingle(line);
  }

  /** A valid cursor's text is a prefix of the final text, and it is strictly shorter
      exactly when there is still a line to type. */
  lemma ValidIsPrefix(lines: seq<string>, p: Playback)
    requires Valid(lines, p)
    ensures |p.text| <= |Rendered(lines)|
    ensures p.text == Rendered(lines)[..|p.text|]
    ensures p.lineIndex < |lines| <==> |p.text| < |Rendered(lines)|
  {
    if p.lineIndex < |lines| {
      var i := p.lineIndex;
      var line := lines[i];
      RenderedSplit(lines, i);
      var tail := line[p.charIndex..] + "\n" + Rendered(lines[i + 1..]);
      assert line + "\n" + Rendered(lines[i + 1..]) == line[..p.charIndex] + tail;
      assert Rendered(lines) == p.text + tail;
    }
  }

  // ---------------------------------------------------------------------------
  // The component
  // ---------------------------------------------------------------------------

  /** State of one mounted hero section. `typing`/`blinking` say whether the two
      intervals are live; `settlePending` counts settle timeouts scheduled and not yet
      fired; `callbacks` counts invocations of `onBootComplete`. */
  datatype Hero = Hero(
    script: seq<string>,
    hasCallback: bool,
    playback: Playback,
    displayText: string,
    typing: bool,
    blinking: bool,
    settlePending: nat,
    showCursor: bool,
    bootComplete: bool,
    callbacks: nat)

  /** First render followed by the effect: both intervals start, the cursor is visible. */
  function Mount(script: seq<string>, hasCallback: bool): Hero
  {
    Hero(script, hasCallback, Start, "", true, true, 0, true, false, 0)
  }

  /** The typing interval fires. A cleared interval never fires again. */
  function TypeTick(h: Hero): Hero
  {
    if !h.typing then h
    else
      match Advance(h.script, h.playback)
      case Some(p) => h.(playback := p, displayText := p.text)
      case None => h.(typing := false, settlePending := h.settlePending + 1)
  }

  /** The blink interval fires. */
  function BlinkTick(h: Hero): Hero
  {
    if h.blinking then h.(showCursor := !h.showCursor) else h
  }

  /** One pending settle timeout fires: the boot is complete and the optional
      `onBootComplete` is called. */
  function SettleFire(h: Hero): Hero
  {
    if h.settlePending == 0 then h
    else
      h.(settlePending := h.settlePending - 1,
         bootComplete := true,
         callbacks := h.callbacks + if h.hasCallback then 1 else 0)
  }

  /** The effect's cleanup: both intervals are cleared, a pending settle timeout is not. */
  function Teardown(h: Hero): Hero
  {
    h.(typing := false, blinking := false)
  }

  /** A new `bootSequence` identity: the old effect is cleaned up and the new one starts
      typing the new script from the beginning. Rendered state is kept. */
  function Restart(h: Hero, script: seq<string>): Hero
  {
    Teardown(h).(script := script, playback := Start, typing := true, blinking := true)
  }

  /** `n` firings of the typing interval. */
  function Ticks(h: Hero, n: nat): Hero
  {
    if n == 0 then h else TypeTick(Ticks(h, n - 1))
  }

  /** Each live, non-terminal typing tick appends exactly one character to the text and
      publishes it, keeps the invariant and advances the cursor lexicographically. */
  lemma TypeTickStep(h: Hero)
    requires h.typing && Valid(h.script, h.playback) && h.playback.lineIndex < |h.script|
    ensures var g := TypeTick(h);
      && g.typing
      && Valid(g.script, g.playback)
      && LexBefore(h.playback, g.playback)
      && |g.playback.text| == |h.playback.text| + 1
      && g.playback.text[..|h.playback.text|] == h.playback.text
      && g.displayText == g.playback.text
      && |g.displayText| <= |Rendered(h.script)|
      && g.displayText == Rendered(h.script)[..|g.displayText|]
  {
    var g := TypeTick(h);
    ValidIsPrefix(g.script, g.playback);
  }

  /** The terminal tick clears the typing interval and schedules one settle timeout,
      and changes nothing else. */
  lemma TerminalTick(h: Hero)
    requires h.typing && h.playback.lineIndex >= |h.script|
    ensures TypeTick(h) == h.(typing := false, settlePending := h.settlePending + 1)
  {
  }

  /** An empty line costs exactly one tick and contributes only "\n". */
  lemma EmptyLineTick(h: Hero)
    requires h.typing && Valid(h.script, h.playback)
    requires h.playback.lineIndex < |h.script| && h.script[h.playback.lineIndex] == ""
    ensures TypeTick(h).playback == Playback(h.playback.lineIndex + 1, 0, h.playback.text + "\n")
  {
  }

  /** Started from `(0, 0, "")`, the first `k` typing ticks publish exactly the first `k`
      characters of the final text, and nothing but the cursor and the display changes. */
  lemma {:induction false} TypingProgress(h: Hero, k: nat)
    requires h.typing && h.playback == Start
    requires k <= |Rendered(h.script)|
    ensures var g := Ticks(h, k);
      && g.typing
      && Valid(g.script, g.playback)
      && g.playback.text == Rendered(h.script)[..k]
      && (k > 0 ==> g.displayText == g.playback.text)
      && g.(playback := Start, displayText := h.displayText) == h
  {
    if k == 0 {
      if |h.script| > 0 {
        assert h.script[..0] == [];
      }
    } else {
      TypingProgress(h, k - 1);
      var g := Ticks(h, k - 1);
      ValidIsPrefix(g.script, g.playback);
      TypeTickStep(g);
    }
  }

  /** After exactly `SumLengths + |lines|` typing ticks the text is every line followed
      by "\n"; the next tick clears the interval and schedules one settle timeout. */
  lemma TypingCompletes(h: Hero)
    requires h.typing && h.playback == Start
    ensures var n := SumLengths(h.script) + |h.script|;
      && Ticks(h, n).playback.text == Rendered(h.script)
      && Ticks(h, n).playback.lineIndex == |h.script|
      && Ticks(h, n).typing
      && !Ticks(h, n + 1).typing
      && Ticks(h, n + 1).playback == Ticks(h, n).playback
      && Ticks(h, n + 1).settlePending == h.settlePending + 1
  {
    RenderedLength(h.script);
    var n := |Rendered(h.script)|;
    var g := Ticks(h, n);
    TypingProgress(h, n);
    ValidIsPrefix(h.script, g.playback);
    assert g.playback.lineIndex == |h.script|;
    TicksSucc(h, n);
    TerminalTick(g);
  }

  /** Once the typing interval is cleared, further firings change nothing, so the
      settle timeout is scheduled once per run. */
  lemma {:induction false} IdleTicks(h: Hero, m: nat)
    requires !h.typing
    ensures Ticks(h, m) == h
  {
    if m > 0 {
      IdleTicks(h, m - 1);
    }
  }

  /** The state right after the terminal tick of a run started at `(0, 0, "")` with an
      empty display: everything is typed, the interval is cleared, one settle timeout is
      pending, and nothing else has changed. */
  lemma TypedOut(h: Hero)
    requires h.typing && h.playback == Start && h.displayText == ""
    ensures Ticks(h, |Rendered(h.script)| + 1)
         == h.(playback := Playback(|h.script|, 0, Rendered(h.script)),
               displayText := Rendered(h.script),
               typing := false,
               settlePending := h.settlePending + 1)
  {
    var n := |Rendered(h.script)|;
    var g := Ticks(h, n);
    var typed := Playback(|h.script|, 0, Rendered(h.script));
    TypingProgress(h, n);
    ValidIsPrefix(h.script, g.playback);
    assert g.playback.text == Rendered(h.script);
    assert g.playback == typed;
    assert g.displayText == Rendered(h.script);
    assert g == h.(playback := typed, displayText := Rendered(h.script));
    TerminalTick(g);
    TicksSucc(h, n);
  }

  lemma TicksSucc(h: Hero, n: nat)
    ensures Ticks(h, n + 1) == TypeTick(Ticks(h, n))
  {
  }

  /** A full boot: from mount, the typing ticks, the terminal tick and the settle timeout
      leave the complete text on screen, `bootComplete` set and `onBootComplete` called
      exactly once when it was given, however many times the cleared interval is asked
      to fire afterwards. */
  lemma BootCompletes(script: seq<string>, hasCallback: bool, m: nat)
    ensures var n := SumLengths(script) + |script|;
      var done := SettleFire(Ticks(Mount(script, hasCallback), n + 1 + m));
      && done.bootComplete
      && done.callbacks == (if hasCallback then 1 else 0)
      && done.settlePending == 0
      && done.displayText == Rendered(script)
      && SettleFire(done) == done
  {
    var h := Mount(script, hasCallback);
    var n := SumLengths(script) + |script|;
    RenderedLength(script);
    TypedOut(h);
    var fin := Ticks(h, n + 1);
    assert !fin.typing && fin.settlePending == 1 && fin.callbacks == 0;
    assert fin.displayText == Rendered(script) && fin.hasCallback == hasCallback;
    IdleTicks(fin, m);
    TicksCompose(h, n + 1, m);
    assert Ticks(h, n + 1 + m) == fin;
  }

  lemma {:induction false} TicksCompose(h: Hero, a: nat, b: nat)
    ensures Ticks(h, a + b) == Ticks(Ticks(h, a), b)
  {
    if b > 0 {
      TicksCompose(h, a, b - 1);
    }
  }

  /** An empty script types nothing: the first tick is terminal and the text stays "". */
  lemma EmptyScript(hasCallback: bool)
    ensures var g := TypeTick(Mount([], hasCallback));
      !g.typing && g.settlePending == 1 && g.playback.text == "" && g.displayText == ""
  {
  }

  // ---------------------------------------------------------------------------
  // Event schedules
  // ---------------------------------------------------------------------------

  datatype Event = TypeFire | BlinkFire | SettleTimeout | Unmount | NewScript(lines: seq<string>)

  function Step(h: Hero, e: Event): Hero
  {
    match e
    case TypeFire => TypeTick(h)
    case BlinkFire => BlinkTick(h)
    case SettleTimeout => SettleFire(h)
    case Unmount => Teardown(h)
    case NewScript(lines) => Restart(h, lines)
  }

  /** Apply a schedule of timer firings and lifecycle events in order. */
  function Run(h: Hero, es: seq<Event>): Hero
    decreases |es|
  {
    if |es| == 0 then h else Run(Step(h, es[0]), es[1..])
  }

  /** Number of blink firings in a schedule. */
  function BlinkCount(es: seq<Event>): nat
  {
    if |es| == 0 then 0 else (if es[0].BlinkFire? then 1 else 0) + BlinkCount(es[1..])
  }

  /** Events that neither tear the component down nor restart it. */
  predicate Mounted(es: seq<Event>)
  {
    forall i :: 0 <= i < |es| ==> !es[i].Unmount? && !es[i].NewScript?
  }

  /** The cursor flag is negated by every blink tick and by nothing else: after any
      interleaving of typing, blink and settle firings, it has flipped once per blink. */
  lemma {:induction false} BlinkParity(h: Hero, es: seq<Event>)
    requires h.blinking && Mounted(es)
    ensures Run(h, es).blinking
    ensures Run(h, es).showCursor == (h.showCursor == (BlinkCount(es) % 2 == 0))
    decreases |es|
  {
    if |es| > 0 {
      BlinkParity(Step(h, es[0]), es[1..]);
    }
  }

  /** From mount the cursor is visible after `n` blink ticks iff `n` is even, whatever
      the typing state. */
  lemma CursorFromMount(script: seq<string>, hasCallback: bool, es: seq<Event>)
    requires Mounted(es)
    ensures Run(Mount(script, hasCallback), es).showCursor == (BlinkCount(es) % 2 == 0)
  {
    BlinkParity(Mount(script, hasCallback), es);
  }

  /** Events that do not restart the typewriter with a new script. */
  predicate NoRestart(es: seq<Event>)
  {
    forall i :: 0 <= i < |es| ==> !es[i].NewScript?
  }

  /** The once-per-run invariant: while typing, no settle timeout has been scheduled and
      the boot is not complete; at most one settle timeout is pending, and only before the
      boot completes; the callback has run at most once, and only once the boot is
      complete. */
  predicate OnceInv(h: Hero)
  {
    && (h.typing ==> h.settlePending == 0 && !h.bootComplete)
    && h.settlePending + (if h.bootComplete then 1 else 0) <= 1
    && h.callbacks <= (if h.bootComplete then 1 else 0)
  }

  /** Without a restart, the typing interval that has stopped never starts again, and the
      once-per-run invariant is kept by every firing and by teardown. */
  lemma {:induction false} OnceAlways(h: Hero, es: seq<Event>)
    requires OnceInv(h) && NoRestart(es)
    ensures OnceInv(Run(h, es))
    ensures !h.typing ==> !Run(h, es).typing
    decreases |es|
  {
    if |es| > 0 {
      OnceAlways(Step(h, es[0]), es[1..]);
    }
  }

  /** From mount, without a restart, the script is typed at most once: the settle timeout
      is scheduled at most once, the boot completes at most once and `onBootComplete` is
      called at most once, whatever the interleaving of firings and teardown. */
  lemma TypesOncePerMount(script: seq<string>, hasCallback: bool, es: seq<Event>)
    requires NoRestart(es)
    ensures var h := Run(Mount(script, hasCallback), es);
      && h.settlePending + (if h.bootComplete then 1 else 0) <= 1
      && h.callbacks <= 1
      && (h.typing ==> !h.bootComplete && h.settlePending == 0)
  {
    OnceAlways(Mount(script, hasCallback), es);
  }

  /** After teardown neither interval fires, but a settle timeout already scheduled still
      sets `bootComplete` and calls `onBootComplete`: the cleanup does not cancel it. */
  lemma TeardownKeepsSettle(h: Hero)
    requires h.settlePending > 0 && h.hasCallback
    ensures TypeTick(Teardown(h)) == Teardown(h)
    ensures BlinkTick(Teardown(h)) == Teardown(h)
    ensures SettleFire(Teardown(h)).bootComplete
    ensures SettleFire(Teardown(h)).callbacks == h.callbacks + 1
  {
  }

  /** A restart types only the new script: after `k` ticks the display is the first `k`
      characters of the new final text, with nothing of the old script merged in. */
  lemma RestartTypesNewScript(h: Hero, lines: seq<string>, k: nat)
    requires 0 < k <= SumLengths(lines) + |lines|
    ensures k <= |Rendered(lines)|
    ensures Ticks(Restart(h, lines), k).displayText == Rendered(lines)[..k]
    ensures Ticks(Restart(h, lines), k).playback.lineIndex <= |lines|
  {
    RenderedLength(lines);
    TypingProgress(Restart(h, lines), k);
  }
}
