/** The enhanced hero section (components/portfolio/hero-section-enhanced.tsx): the same
    typewriter as the plain hero section, over a fixed seven-line script, memoised with
    no dependencies (so it never restarts) and with no completion callback. */
module HeroSectionEnhanced {
  import H = HeroSection

  /** The fixed script; its sixth entry is a blank line. */
  const Script: seq<string> := [
    "> INITIATING RAJ_OS v2.0...",
    "> LOADING NEURAL NETWORKS...",
    "> COMPILING DREAMS INTO CODE...",
    "> ESTABLISHING CONNECTION TO THE FUTURE...",
    "> SYSTEM READY.",
    "",
    "Welcome to my story."
  ]

  /** Mount: there is no `onBootComplete` prop, only the local `bootComplete` flag. */
  function Mount(): H.Hero
  {
    H.Mount(Script, false)
  }

  /** Typing takes one tick per character plus one per line: 163 + 7. */
  lemma ScriptTicks()
    ensures |Script| == 7 && Script[5] == ""
    ensures H.SumLengths(Script) == 163
    ensures |H.Rendered(Script)| == H.SumLengths(Script) + 7 == 170
  {
    assert H.SumLengths(Script[..1]) == 27 by {
      assert Script[..1][..0] == [];
    }
    assert H.SumLengths(Script[..2]) == 27 + 28 by {
      assert Script[..2][..1] == Script[..1];
    }
    assert H.SumLengths(Script[..3]) == 55 + 31 by {
      assert Script[..3][..2] == Script[..2];
    }
    assert H.SumLengths(Script[..4]) == 86 + 42 by {
      assert Script[..4][..3] == Script[..3];
    }
    assert H.SumLengths(Script[..5]) == 128 + 15 by {
      assert Script[..5][..4] == Script[..4];
    }
    assert H.SumLengths(Script[..6]) == 143 by {
      assert Script[..6][..5] == Script[..5];
    }
    assert Script[..7][..6] == Script[..6];
    assert Script[..7] == Script;
    H.RenderedLength(Script);
  }

  /** After 170 typing ticks and the terminal tick, the seven lines are on screen, each
      followed by "\n"; the settle timeout then sets `bootComplete`, and no callback is
      ever invoked. */
  lemma EnhancedBoot(m: nat)
    ensures var done := H.SettleFire(H.Ticks(Mount(), 171 + m));
      && done.bootComplete
      && done.callbacks == 0
      && done.displayText == H.Rendered(Script)
  {
    ScriptTicks();
    H.BootCompletes(Script, false, m);
  }

  /** Without a callback prop, no schedule of firings, teardowns or restarts calls one. */
  lemma {:induction false} NoCallback(h: H.Hero, es: seq<H.Event>)
    requires !h.hasCallback
    ensures H.Run(h, es).callbacks == h.callbacks
    decreases |es|
  {
    if |es| > 0 {
      NoCallback(H.Step(h, es[0]), es[1..]);
    }
  }

  /** Events other than a new script leave the script alone. */
  lemma {:induction false} ScriptFixed(h: H.Hero, es: seq<H.Event>)
    requires H.NoRestart(es)
    ensures H.Run(h, es).script == h.script
    decreases |es|
  {
    if |es| > 0 {
      ScriptFixed(H.Step(h, es[0]), es[1..]);
    }
  }

  /** The script is memoised with no dependencies, so the section never receives a new
      one: from mount, under any schedule of firings and teardown, it keeps its fixed
      script, types it at most once (the settle timeout is scheduled at most once) and
      calls no callback. */
  lemma TypesOnce(es: seq<H.Event>)
    requires H.NoRestart(es)
    ensures var h := H.Run(Mount(), es);
      && h.script == Script
      && h.settlePending + (if h.bootComplete then 1 else 0) <= 1
      && h.callbacks == 0
  {
    ScriptFixed(Mount(), es);
    H.TypesOncePerMount(Script, false, es);
    NoCallback(Mount(), es);
  }
}
