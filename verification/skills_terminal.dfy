/** The skills terminal (components/portfolio/skills-terminal.tsx): a command line built
    from the active category, typed out one prefix per tick once the terminal has scrolled
    into view, and retyped whenever another category tab is chosen. */
module SkillsTerminal {
  import opened Text

  datatype Category = Category(name: string, skills: seq<string>)

  /** The text before the category name in the command. */
  const Prefix := "raj --list-skills --category=\""

  /** `skillCategories[i]?.name.toLowerCase()` as interpolated into a template string:
      an index with no category gives the text "undefined". */
  function CategoryText(categories: seq<Category>, i: int): string
  {
    if 0 <= i < |categories| then Lower(categories[i].name) else "undefined"
  }

  /** The command line for the active category. */
  function Command(categories: seq<Category>, i: int): string
  {
    Prefix + CategoryText(categories, i) + "\""
  }

  /** The category text is recoverable from the command: between the fixed prefix and the
      closing quote. Hence tabs whose names differ (ignoring case) type different commands. */
  lemma CommandDecodes(categories: seq<Category>, i: int)
    ensures var c := Command(categories, i);
      && |c| == |Prefix| + |CategoryText(categories, i)| + 1
      && c[..|Prefix|] == Prefix
      && c[|c| - 1] == '"'
      && c[|Prefix|..|c| - 1] == CategoryText(categories, i)
  {
  }

  lemma CommandsDiffer(categories: seq<Category>, i: int, j: int)
    requires CategoryText(categories, i) != CategoryText(categories, j)
    ensures Command(categories, i) != Command(categories, j)
  {
    CommandDecodes(categories, i);
    CommandDecodes(categories, j);
  }

  /** Component state. `target`, `counter` and `running` are the live effect's captured
      command, its counter `i` and whether its interval is set. */
  datatype Terminal = Terminal(
    categories: seq<Category>,
    inView: bool,
    active: int,
    typed: string,
    target: string,
    counter: nat,
    running: bool)

  function Init(categories: seq<Category>): Terminal
  {
    Terminal(categories, false, 0, "", "", 0, false)
  }

  /** The effect re-runs after a change of its dependencies: the previous interval is
      cleared; when in view, typing restarts from "" with the counter at 0. */
  function Effect(t: Terminal): Terminal
  {
    if t.inView then
      t.(typed := "", target := Command(t.categories, t.active), counter := 0, running := true)
    else
      t.(running := false)
  }

  /** The terminal scrolls into view (`useInView` with `once`: it never leaves again). */
  function EnterView(t: Terminal): Terminal
  {
    if t.inView then t else Effect(t.(inView := true))
  }

  /** Clicking tab `i`. Selecting the tab already active does not re-render. */
  function SelectTab(t: Terminal, i: int): Terminal
  {
    if i == t.active then t else Effect(t.(active := i))
  }

  /** One firing of the typing interval. */
  function Tick(t: Terminal): Terminal
  {
    if !t.running then t
    else if t.counter < |t.target| then
      t.(typed := t.target[..t.counter + 1], counter := t.counter + 1)
    else
      t.(running := false)
  }

  function Ticks(t: Terminal, n: nat): Terminal
  {
    if n == 0 then t else Tick(Ticks(t, n - 1))
  }

  /** The typed text is always a prefix of the command being typed, and while the
      interval runs it is exactly the first `counter` characters. */
  predicate Inv(t: Terminal)
  {
    && |t.typed| <= |t.target|
    && t.typed == t.target[..|t.typed|]
    && (t.running ==> t.counter <= |t.target| && t.typed == t.target[..t.counter])
  }

  datatype Event = Fire | Enter | Select(i: int)

  function Step(t: Terminal, e: Event): Terminal
  {
    match e
    case Fire => Tick(t)
    case Enter => EnterView(t)
    case Select(i) => SelectTab(t, i)
  }

  function Run(t: Terminal, es: seq<Event>): Terminal
    decreases |es|
  {
    if |es| == 0 then t else Run(Step(t, es[0]), es[1..])
  }

  /** Every event keeps the prefix invariant, from the initial state onwards. */
  lemma {:induction false} InvAlways(t: Terminal, es: seq<Event>)
    requires Inv(t)
    ensures Inv(Run(t, es))
    decreases |es|
  {
    if |es| > 0 {
      var u := Step(t, es[0]);
      assert Inv(u) by {
        if es[0].Fire? && t.running && t.counter < |t.target| {
          assert t.target[..t.counter + 1][..t.counter] == t.target[..t.counter];
        }
      }
      InvAlways(u, es[1..]);
    }
  }

  lemma InitInv(categories: seq<Category>)
    ensures Inv(Init(categories))
  {
  }

  /** Started fresh, `k` ticks with `k` at most the command length type exactly the first
      `k` characters. */
  lemma {:induction false} TypingProgress(t: Terminal, k: nat)
    requires t.running && t.typed == "" && t.counter == 0
    requires k <= |t.target|
    ensures Ticks(t, k).running
    ensures Ticks(t, k).counter == k
    ensures Ticks(t, k).typed == t.target[..k]
    ensures Ticks(t, k).target == t.target
  {
    if k > 0 {
      TypingProgress(t, k - 1);
    }
  }

  /** After `|command|` ticks the whole command is shown; the next tick clears the
      interval without changing the text, and later firings change nothing. */
  lemma TypingCompletes(t: Terminal, m: nat)
    requires t.running && t.typed == "" && t.counter == 0
    ensures Ticks(t, |t.target|).typed == t.target
    ensures !Ticks(t, |t.target| + 1).running
    ensures Ticks(t, |t.target| + 1 + m).typed == t.target
  {
    var n := |t.target|;
    var typedOut := Ticks(t, n);
    TypingProgress(t, n);
    assert t.target[..n] == t.target;
    var fin := Ticks(t, n + 1);
    assert fin == typedOut.(running := false);
    IdleTicks(fin, m);
    TicksCompose(t, n + 1, m);
  }

  lemma {:induction false} IdleTicks(t: Terminal, m: nat)
    requires !t.running
    ensures Ticks(t, m) == t
  {
    if m > 0 {
      IdleTicks(t, m - 1);
    }
  }

  lemma {:induction false} TicksCompose(t: Terminal, a: nat, b: nat)
    ensures Ticks(t, a + b) == Ticks(Ticks(t, a), b)
  {
    if b > 0 {
      TicksCompose(t, a, b - 1);
    }
  }

  /** Nothing is typed while the terminal is out of view, whatever tabs are clicked and
      however often the (never set) interval would fire. */
  lemma {:induction false} NothingOutOfView(t: Terminal, es: seq<Event>)
    requires !t.inView && !t.running && t.typed == ""
    requires forall i :: 0 <= i < |es| ==> !es[i].Enter?
    ensures Run(t, es).typed == ""
    ensures !Run(t, es).inView
    decreases |es|
  {
    if |es| > 0 {
      NothingOutOfView(Step(t, es[0]), es[1..]);
    }
  }

  /** In view, clicking another tab makes it active and restarts typing of its command
      from the empty string. */
  lemma SelectRestarts(t: Terminal, i: int)
    requires t.inView && i != t.active
    ensures var u := SelectTab(t, i);
      && u.active == i
      && u.target == Command(t.categories, i)
      && u.typed == "" && u.counter == 0 && u.running
  {
  }

  /** The first tick after entering view shows the first character of the command of the
      active tab, and after `|command|` ticks the whole command. */
  lemma EnterThenType(t: Terminal)
    requires !t.inView
    ensures var u := EnterView(t);
      && u.target == Command(t.categories, t.active)
      && Ticks(u, |u.target|).typed == Command(t.categories, t.active)
  {
    TypingCompletes(EnterView(t), 0);
  }
}
