# Portfolio site behaviour, modelled in Dafny

This project models the small pieces of sequential logic in a single-page developer
portfolio built from React components. The site has no server and no persistence. What it
does have is timers, validators and a few list and string operations. Each one becomes an
immutable datatype with a pure step function. Each timer becomes repeated application of
a tick, and the properties are proved by induction on the tick count.

- `HeroSection`: the boot-sequence typewriter. It reveals one character per tick, or a
  newline when a line is exhausted, and ends with a terminal tick that clears the interval
  and schedules a settle timeout. That timeout sets `bootComplete` and calls the optional
  `onBootComplete`. The module also covers the blinking cursor, teardown and the restart on
  a new `bootSequence`.
- `HeroSectionEnhanced`: the same typewriter over a fixed seven-line script. It has no
  callback and never restarts.
- `SkillsTerminal`: the `raj --list-skills --category="…"` command, typed one prefix per
  tick once the terminal is in view and retyped when another tab is chosen.
- `Validators`: `email`, `required`, `minLength`. The email regular expression is matched
  by a scanning function that is proved equivalent to a direct reading of the pattern.
- `Constants`: the z-index and breakpoint scales, the HTTP status codes, the cache
  lifetimes, the phone pattern, and the email pattern shared with the validators.
- `ErrorHandler`: the error record, its named constructors with their defaults and status
  codes, and the user-message table.
- `ToastNotification`: the `useToast` list (add, remove, typed shortcuts) and the
  auto-dismiss rule.
- `ContactSection`: the controlled form, the browser's validation of its `required` and
  `type="email"` controls, and the simulated submission.
- `NavigationEnhanced`: the scrolled flag, the scan for the first section under the probe
  line, item highlighting and the mobile menu.
- `ProjectsGrid`: the bento column spans.
- `ProjectCard` and `ProjectCardEnhanced`: the title slug, the zero-padded number label,
  the featured span and badge, the stats rows and the links.
- `Badge`: the `StatusBadge` label and dot colour, plus `Badge` and `Tag` defaults and
  gating.
- `Text`: the shared `Option` type and ASCII character helpers.

Strings are `seq<char>` over ASCII. JavaScript's `\s` is taken as space, tab, newline,
carriage return, vertical tab and form feed. Timer periods (30, 530, 500, 20, 1500 and
4000 ms) become the order of abstract firings. The DOM (element rectangles, `scrollY`),
toast ids (built in the source from the clock and a random number) and the
`onBootComplete` callback are parameters supplied by the caller.

Three facts of the boot-sequence code fix the shape of the model:

- The code appends `"\n"` after every line, including the last, so the final text is
  each line followed by a newline.
- Typing therefore takes `Σ|line| + |lines|` ticks, one per character and one per line.
- The effect's cleanup clears only the typing and blink intervals, not the settle timeout.
  A settle timeout that is already scheduled still sets `bootComplete` and calls
  `onBootComplete` after teardown (`HeroSection.TeardownKeepsSettle`).

## Model

| member | source | states |
|---|---|---|
| HeroSection.Advance | components/portfolio/hero-section.tsx:38-49 | A tick is terminal iff the line index has reached the end of the script. Otherwise it appends exactly one character, advances `(lineIndex, charIndex)` lexicographically and preserves the typing-state invariant. |
| HeroSection.TypeTick | components/portfolio/hero-section.tsx:37-57 | One firing of the typing interval. What it does is stated by TypeTickStep, TerminalTick, EmptyLineTick and IdleTicks below. |
| HeroSection.BlinkTick | components/portfolio/hero-section.tsx:59-61 | One firing of the cursor interval. Its effect is stated by BlinkParity. |
| HeroSection.SettleFire | components/portfolio/hero-section.tsx:52-55 | The settle timeout fires. Its effect is stated by BootCompletes and TeardownKeepsSettle. |
| HeroSection.Teardown | components/portfolio/hero-section.tsx:63-66 | The effect cleanup. Its effect is stated by TeardownKeepsSettle. |
| HeroSection.Restart | components/portfolio/hero-section.tsx:29-67 | A new `bootSequence` identity re-runs the effect. Its effect is stated by RestartTypesNewScript. |
| HeroSection.RenderedLength | components/portfolio/hero-section.tsx:38-49 | The fully typed text has one character per script character plus one newline per line. |
| HeroSection.ValidIsPrefix | components/portfolio/hero-section.tsx:40-48 | Any state satisfying the invariant shows a prefix of the final text. The prefix is strictly shorter exactly while a line remains to be typed. |
| HeroSection.TypeTickStep | components/portfolio/hero-section.tsx:37-49 | A live non-terminal tick appends one character and publishes it. The published text stays a prefix of the final output. |
| HeroSection.TerminalTick | components/portfolio/hero-section.tsx:50-56 | The first tick past the last line clears the interval and schedules exactly one settle timeout, changing nothing else. |
| HeroSection.EmptyLineTick | components/portfolio/hero-section.tsx:44-48 | An empty line costs one tick and contributes only `"\n"`. |
| HeroSection.TypingProgress | components/portfolio/hero-section.tsx:33-49 | Starting from `(0, 0, "")`, after k ticks the text is the first k characters of the final text and the invariant holds. |
| HeroSection.TypingCompletes | components/portfolio/hero-section.tsx:37-56 | After exactly `Σ|line| + |lines|` ticks the text is every line followed by `"\n"`. The next tick stops typing and schedules the settle timeout. |
| HeroSection.IdleTicks | components/portfolio/hero-section.tsx:51 | A cleared typing interval never changes the state again, so completion is scheduled once per run. |
| HeroSection.TypedOut | components/portfolio/hero-section.tsx:37-56 | The exact state right after the terminal tick: everything typed and displayed, interval cleared, one settle pending. |
| HeroSection.BootCompletes | components/portfolio/hero-section.tsx:37-56 | From mount, after typing and the settle timeout: `bootComplete` holds, the callback has run exactly once when given and never otherwise, and the full text is on screen. |
| HeroSection.EmptyScript | components/portfolio/hero-section.tsx:38-52 | An empty script has no typing ticks. The first tick is terminal and the text stays `""`. |
| HeroSection.BlinkParity | components/portfolio/hero-section.tsx:59-61 | In any interleaving of firings, the cursor flag has flipped once per blink tick and is unaffected by typing or settling. |
| HeroSection.CursorFromMount | components/portfolio/hero-section.tsx:15-61 | The cursor starts visible. After n blink ticks it is visible iff n is even. |
| HeroSection.TeardownKeepsSettle | components/portfolio/hero-section.tsx:63-66 | Teardown stops both intervals. A settle timeout already scheduled still fires and calls `onBootComplete`. |
| HeroSection.RestartTypesNewScript | components/portfolio/hero-section.tsx:29-36 | After a new script identity, typing starts again from `(0, 0, "")`. The display is a prefix of the new script's text only. |
| HeroSection.OnceAlways | components/portfolio/hero-section.tsx:37-66 | Without a new script, a stopped typing interval never starts again. Firings and teardown keep the once-per-run invariant: while typing nothing is scheduled, at most one settle is pending and only before completion, and the callback has run at most once and only after completion. |
| HeroSection.TypesOncePerMount | components/portfolio/hero-section.tsx:31-67 | From mount, without a new script, the settle timeout is scheduled at most once and `onBootComplete` runs at most once, under any interleaving of firings and teardown. |
| HeroSectionEnhanced.ScriptTicks | components/portfolio/hero-section-enhanced.tsx:21-29 | The fixed script has seven lines whose sixth is `""`. Its 163 characters type in 170 ticks. |
| HeroSectionEnhanced.EnhancedBoot | components/portfolio/hero-section-enhanced.tsx:37-54 | After 170 typing ticks and the terminal tick, the seven lines are shown, each followed by `"\n"`. The settle timeout sets `bootComplete` and no callback runs. |
| HeroSectionEnhanced.NoCallback | components/portfolio/hero-section-enhanced.tsx:50-52 | Completion only sets the local flag: no schedule of events invokes a callback. |
| HeroSectionEnhanced.ScriptFixed | components/portfolio/hero-section-enhanced.tsx:21-29 | Firings and teardown never change the script; only a new script would. |
| HeroSectionEnhanced.TypesOnce | components/portfolio/hero-section-enhanced.tsx:21-64 | The memoised script never changes, so from mount the section keeps its fixed script, schedules the settle timeout at most once and calls no callback, under any schedule of firings and teardown. |
| SkillsTerminal.CommandDecodes | components/portfolio/skills-terminal.tsx:16 | The command is the fixed prefix, then the lower-cased category name (or `undefined` for a missing index), then a closing quote. The name can be read back out of the command. |
| SkillsTerminal.CommandsDiffer | components/portfolio/skills-terminal.tsx:16 | Categories whose lower-cased names differ get different commands. |
| SkillsTerminal.Command | components/portfolio/skills-terminal.tsx:16 | The command line of the active tab. Its shape is stated by CommandDecodes. |
| SkillsTerminal.Effect | components/portfolio/skills-terminal.tsx:18-32 | The effect re-run after a dependency change. Its effect is stated by SelectRestarts and EnterThenType. |
| SkillsTerminal.EnterView | components/portfolio/skills-terminal.tsx:12 | `useInView` fires once. Its effect is stated by EnterThenType and NothingOutOfView. |
| SkillsTerminal.SelectTab | components/portfolio/skills-terminal.tsx:104 | A tab click. Its effect is stated by SelectRestarts. |
| SkillsTerminal.Tick | components/portfolio/skills-terminal.tsx:22-28 | One firing of the typing interval. Its effect is stated by TypingProgress and TypingCompletes. |
| SkillsTerminal.InitInv | components/portfolio/skills-terminal.tsx:13-14 | The initial state satisfies the prefix invariant. |
| SkillsTerminal.InvAlways | components/portfolio/skills-terminal.tsx:18-32 | Under every event sequence the typed text is a prefix of the command being typed. While the interval runs, it is exactly the first `counter` characters. |
| SkillsTerminal.TypingProgress | components/portfolio/skills-terminal.tsx:20-25 | After a (re)start, k ≤ \|command\| ticks type exactly `command[..k]` with the counter at k. |
| SkillsTerminal.TypingCompletes | components/portfolio/skills-terminal.tsx:22-28 | After \|command\| ticks the command is shown in full. The next tick stops the interval without changing the text. |
| SkillsTerminal.NothingOutOfView | components/portfolio/skills-terminal.tsx:19 | Nothing is typed while the terminal is out of view, whatever tabs are clicked. |
| SkillsTerminal.SelectRestarts | components/portfolio/skills-terminal.tsx:18-32 | When in view, clicking another tab makes it active. Typing of its command restarts from `""` with the counter at 0. |
| SkillsTerminal.EnterThenType | components/portfolio/skills-terminal.tsx:18-29 | Entering view starts typing the active tab's command, which is complete after \|command\| ticks. |
| Validators.EmailIsPattern | lib/validators.ts:6-10 | The matcher accepts exactly the strings that have a non-empty local part, `@`, a non-empty label, `.`, and a non-empty rest, with no whitespace or `@` in the three parts. |
| Validators.Email | lib/validators.ts:6-10 | The email check. It is characterised by EmailIsPattern. |
| Validators.Required | lib/validators.ts:11 | The required check. It is characterised by RequiredIffVisible. |
| Validators.MinLength | lib/validators.ts:12 | The length check. It is characterised by MinLengthFacts. |
| Validators.EmailRejects | lib/validators.ts:6-10 | `email` rejects `""` and every string containing whitespace. |
| Validators.RequiredIffVisible | lib/validators.ts:11 | `required` holds iff the value has a non-whitespace character. |
| Validators.MinLengthFacts | lib/validators.ts:12 | `minLength(v, 0)` always holds, and `minLength` is antitone in the bound. |
| Validators.RequiredImpliesMinLength | lib/validators.ts:11-12 | A required value has length at least 1. |
| Validators.EmailImpliesRequired | lib/validators.ts:10-11 | Every accepted email passes `required`. |
| Constants.ScalesIncrease | lib/constants.ts:17-37 | The z-index layers and the breakpoints each strictly increase in declaration order. |
| Constants.CacheLifetimes | lib/constants.ts:106-108 | The cache lifetimes are 300000, 1800000 and 86400000 ms, strictly increasing. |
| Constants.EmailPatternsAgree | lib/constants.ts:83 | `VALIDATION.EMAIL` is the same pattern as the validators' email, so one matcher serves both. |
| Constants.MatchPhone | lib/constants.ts:85 | The phone matcher accepts iff the length is ≥ 10 and every character is a digit, whitespace, `-`, `+`, `(` or `)`. |
| Constants.PhoneExamples | lib/constants.ts:85 | A formatted number matches. Nine characters, or a letter anywhere, do not. |
| ErrorHandler.Create | lib/error-handler.ts:32-46 | The type, message, status code and context are stored unchanged. |
| ErrorHandler.ValidationError | lib/error-handler.ts:51-58 | The type is VALIDATION and the status is `HTTP_STATUS.BAD_REQUEST`. The context is `{field}` iff a non-empty field is given, else absent. |
| ErrorHandler.NetworkError | lib/error-handler.ts:63-69 | An empty message becomes `'Network request failed'`. A missing or zero status becomes 0. |
| ErrorHandler.AuthenticationError | lib/error-handler.ts:74-76 | The type is AUTHENTICATION and the status is 401. The default message applies only when none is passed. |
| ErrorHandler.PermissionError | lib/error-handler.ts:81-83 | The type is PERMISSION and the status is 403, with the default message `'Permission denied'`. |
| ErrorHandler.NotFoundError | lib/error-handler.ts:88-94 | The type is NOT_FOUND and the status is 404. The message is the resource (default `Resource`) followed by `" not found"`. |
| ErrorHandler.ServerError | lib/error-handler.ts:99-101 | The type is SERVER. The status defaults to 500 and the message to `'Internal server error'`. |
| ErrorHandler.UnknownError | lib/error-handler.ts:106-109 | The type is UNKNOWN and there is no status. The message is the Error's own message, or `'An unknown error occurred'` for any other thrown value. |
| ErrorHandler.StatusCodesMatchHttp | lib/constants.ts:58-62 | The codes the constructors attach equal `HTTP_STATUS` BAD_REQUEST, UNAUTHORIZED, FORBIDDEN, NOT_FOUND and INTERNAL_SERVER_ERROR. |
| ErrorHandler.UserMessage | lib/error-handler.ts:129-142 | The result is the table entry for the error's type, never the `||` fallback, and never empty. |
| ErrorHandler.UserMessageByKind | lib/error-handler.ts:129-142 | Two errors get the same user message iff they have the same type. |
| ErrorHandler.CodesDistinct | lib/error-handler.ts:6-15 | The eight `ErrorType` strings are pairwise distinct. |
| ErrorHandler.FromCode | lib/error-handler.ts:6-15 | A code decodes to a kind only if that kind's string is the code. |
| ErrorHandler.CodeRoundTrip | lib/error-handler.ts:6-15 | Decoding a kind's string gives the kind back. |
| ErrorHandler.ConstructorMessages | lib/error-handler.ts:51-142 | For all arguments, each constructor's user message is its own kind's table entry. `network`, `notFound` and `unknown` of a non-Error never give an empty message, nor do `authentication`, `permission` and `server` without a message. `validation` keeps the message it is given, and an explicit empty message to `authentication` stays empty. |
| ToastNotification.AddToast | components/ui/toast-notification.tsx:103-107 | Exactly one toast is appended at the end and earlier toasts are unchanged. The type defaults to info and the duration to 4000. The id is returned. |
| ToastNotification.ShortcutsTyped | components/ui/toast-notification.tsx:113-116 | `success`, `error`, `warning` and `info` each append one toast of their own type lasting 4000 ms after the unchanged list and return its id. `info` equals `addToast` with no type. |
| ToastNotification.SuccessToast | components/ui/toast-notification.tsx:113 | One success toast lasting 4000 ms is appended after the unchanged list, and its id is returned. |
| ToastNotification.ErrorToast | components/ui/toast-notification.tsx:114 | One error toast lasting 4000 ms is appended after the unchanged list, and its id is returned. |
| ToastNotification.InfoToast | components/ui/toast-notification.tsx:115 | One info toast lasting 4000 ms is appended after the unchanged list, and its id is returned. |
| ToastNotification.WarningToast | components/ui/toast-notification.tsx:116 | One warning toast lasting 4000 ms is appended after the unchanged list, and its id is returned. |
| ToastNotification.RemoveToast | components/ui/toast-notification.tsx:109-111 | Exactly the toasts with a different id are kept. Removing an absent id leaves the list unchanged. |
| ToastNotification.RemoveAppend | components/ui/toast-notification.tsx:110 | Removal distributes over concatenation, so kept toasts stay in their original order. |
| ToastNotification.RemoveIdempotent | components/ui/toast-notification.tsx:110 | Removing the same id twice is the same as removing it once. |
| ToastNotification.AddThenRemove | components/ui/toast-notification.tsx:105-110 | Adding under a fresh id and then removing that id restores the previous list. |
| ToastNotification.DismissDelay | components/ui/toast-notification.tsx:47-51 | There is no timer iff the duration is Infinity. Otherwise the delay is the duration, with 0 or a missing duration treated as 4000. |
| ToastNotification.DefaultDismiss | components/ui/toast-notification.tsx:48-49 | A toast added with the defaults is dismissed after 4000 ms. |
| ToastNotification.AddedDismiss | components/ui/toast-notification.tsx:47-51 | For every `addToast` duration argument: there is no timer iff it is Infinity, a non-zero count is used as given, and an omitted argument behaves like 4000 or 0. |
| ContactSection.Edit | components/portfolio/contact-section.tsx:90-117 | Editing one field sets it and leaves the other two fields and the submitting state unchanged. |
| ContactSection.Submit | components/portfolio/contact-section.tsx:18-21 | Submit sets `isSubmitting`, keeps the fields and schedules one completion. Nothing is sent. |
| ContactSection.Complete | components/portfolio/contact-section.tsx:22-25 | The completion clears `isSubmitting` and resets all three fields to `""`. |
| ContactSection.SubmitButton | components/portfolio/contact-section.tsx:127-140 | The button is disabled and reads "Transmitting..." iff submitting. Otherwise it reads "Send Message". |
| ContactSection.IsValidEmailAddress | components/portfolio/contact-section.tsx:102 | The accepted addresses are the valid e-mail addresses of the HTML standard: a local part of atext characters and dots, `@`, and dot-separated labels. |
| ContactSection.Press | components/portfolio/contact-section.tsx:82-127 | A press submits iff the form is idle and passes the browser's validation: all three `required` fields are non-empty and the email is a valid address. Otherwise nothing changes. |
| ContactSection.BlankFormBlocked | components/portfolio/contact-section.tsx:82-121 | The initial blank form cannot be submitted, and neither can a form whose email has no `@`. |
| ContactSection.BrowserValidIsSiteValid | components/portfolio/contact-section.tsx:102 | Every address the browser accepts with a dot in its domain is also accepted by the site's own email validator. |
| ContactSection.InvAlways | components/portfolio/contact-section.tsx:18-25 | Under any events, at most one completion is pending, and the form is submitting exactly while one is. |
| ContactSection.OneSubmissionAtATime | components/portfolio/contact-section.tsx:127 | From the initial blank form, one submission is in flight at a time, and the button is disabled while it is. |
| ContactSection.EditsDuringSubmitLost | components/portfolio/contact-section.tsx:22-25 | Edits made while the submission is pending are discarded by the completion. |
| NavigationEnhanced.SectionIds | components/portfolio/navigation-enhanced.tsx:25 | The section ids are the hrefs without their first character, in nav order. |
| NavigationEnhanced.FirstHit | components/portfolio/navigation-enhanced.tsx:26-35 | The reference scan returns the first id whose element exists with top ≤ 100 ≤ bottom, and none when no id qualifies. |
| NavigationEnhanced.ScanSections | components/portfolio/navigation-enhanced.tsx:26-35 | The loop selects the first matching section. If none matches, the active section is left unchanged. |
| NavigationEnhanced.HandleScroll | components/portfolio/navigation-enhanced.tsx:21-36 | `isScrolled` iff `scrollY > 50`. The active section becomes the first section in nav order whose element spans the probe line at 100, and stays unchanged when none does. |
| NavigationEnhanced.NavIds | components/portfolio/navigation-enhanced.tsx:7-25 | The section ids are origin, arsenal, creations, journey and connect, in nav order. |
| NavigationEnhanced.NavIdsDistinct | components/portfolio/navigation-enhanced.tsx:7-13 | The five section ids are pairwise distinct, so at most one nav item can match the active section. |
| NavigationEnhanced.HighlightExactlyOne | components/portfolio/navigation-enhanced.tsx:73 | Nothing is highlighted initially. When the active section is item i's id, exactly item i is highlighted. |
| NavigationEnhanced.Highlighted | components/portfolio/navigation-enhanced.tsx:73 | The highlight test. It is characterised by HighlightExactlyOne. |
| NavigationEnhanced.ToggleMenu | components/portfolio/navigation-enhanced.tsx:127 | The menu button negates `isMobileMenuOpen` and changes nothing else. |
| NavigationEnhanced.ToggleMenuTwice | components/portfolio/navigation-enhanced.tsx:127 | Pressing the menu button twice restores the state. |
| NavigationEnhanced.ClickMobileItem | components/portfolio/navigation-enhanced.tsx:151 | Clicking a mobile item closes the menu. |
| ProjectsGrid.Span | components/portfolio/projects-grid.tsx:24-25 | An item spans 4 columns iff its index mod 4 is 0 or 3, and 2 otherwise. |
| ProjectsGrid.SpanPeriodic | components/portfolio/projects-grid.tsx:24 | Spans have period 4. |
| ProjectsGrid.PairFillsRow | components/portfolio/projects-grid.tsx:20-25 | Items 2k and 2k+1 together span the six grid columns. |
| ProjectsGrid.BlockOfFour | components/portfolio/projects-grid.tsx:24-25 | Every aligned block of four spans 4, 2, 2, 4. This follows the code; the comment above it describes a different pattern. |
| ProjectsGrid.Layout | components/portfolio/projects-grid.tsx:21-31 | Cards appear in input order, each with its position as its index and that position's span. |
| ProjectsGrid.RowsFill | components/portfolio/projects-grid.tsx:20-25 | The first 2m cards fill exactly m six-column rows. |
| ProjectCard.SlugFacts | components/portfolio/project-card.tsx:42 | The slug has no whitespace and is idempotent. It keeps the title's non-whitespace characters, lower-cased and in order. |
| ProjectCard.SlugRun | components/portfolio/project-card.tsx:42 | Every maximal whitespace run in the title becomes a single `-`. |
| ProjectCard.Slug | components/portfolio/project-card.tsx:42 | The slug has no whitespace. It is characterised by SlugFacts and SlugRun. |
| ProjectCard.DigitsRoundTrip | components/portfolio/project-card.tsx:48 | The decimal digits of n parse back to n. |
| ProjectCard.NumberLabelFacts | components/portfolio/project-card.tsx:48 | The label is index+1 in decimal, padded with one zero below 10 and unpadded from 10 on. It has at least two digits and parses back to index+1. |
| ProjectCard.NumberLabelExamples | components/portfolio/project-card.tsx:48 | The labels for indices 0, 8 and 9 are "01", "09" and "10". |
| ProjectCard.NumberLabel | components/portfolio/project-card.tsx:48 | The number label. It is characterised by NumberLabelFacts. |
| ProjectCard.Links | components/portfolio/project-card.tsx:78-99 | The Source link to `githubUrl` comes first. A second, Live link to `liveUrl` is present iff `liveUrl` is a non-empty string. |
| ProjectCard.Card | components/portfolio/project-card.tsx:16-99 | `featured` defaults to false and adds `md:col-span-2` iff true. The Source link is always first. The Live link is present iff `liveUrl` is non-empty. |
| ProjectCard.LinksEmptyLive | components/portfolio/project-card.tsx:88 | An empty `liveUrl` gives the same links as an absent one: the Source link alone. |
| ProjectCard.CardDefaults | components/portfolio/project-card.tsx:16-23 | Omitting `featured` is the same as passing `false`, and omitting `liveUrl` is the same as passing "". |
| ProjectCardEnhanced.Card | components/portfolio/project-card-enhanced.tsx:20-123 | Slug, label and links are the same as the plain card's. The badge and span classes apply iff featured. The stats block renders iff featured and stats are given. Its first child is the stars row for a non-zero count and the text "0" for a count of 0. Its second child is the downloads row or nothing. |
| ProjectCardEnhanced.CorrectedCard | components/portfolio/project-card-enhanced.tsx:81-96 | The same view as Card apart from the stats block. The stats block never holds stray text. |
| ProjectCardEnhanced.StrayZero | components/portfolio/project-card-enhanced.tsx:81-84 | The card as written and the corrected card differ exactly on featured cards with a star count of 0. |
| ProjectCardEnhanced.FeaturedDefault | components/portfolio/project-card-enhanced.tsx:20-30 | Omitting `featured` is the same as passing `false`, and then no stats block renders. |
| ProjectCardEnhanced.EnhancedLinks | components/portfolio/project-card-enhanced.tsx:123 | The Live link is shown iff `liveUrl` is non-empty, after the Source link. |
| ProjectCardEnhanced.StarsChildAsWritten | components/portfolio/project-card-enhanced.tsx:84 | As written, the stars row shows for a non-zero count and a count of 0 shows the text "0". |
| ProjectCardEnhanced.StarsChild | components/portfolio/project-card-enhanced.tsx:84 | The stars row shows iff the count is present and non-zero, and nothing shows otherwise. |
| ProjectCardEnhanced.StarsZeroRendersText | components/portfolio/project-card-enhanced.tsx:84 | For a count of 0, the as-written child is the text "0" and the corrected child is nothing. |
| ProjectCardEnhanced.StarsChildAgrees | components/portfolio/project-card-enhanced.tsx:84 | The two stars children differ exactly on a count of 0. |
| ProjectCardEnhanced.AndRender | components/portfolio/project-card-enhanced.tsx:81-96 | React's rendering of `v && row`: the row when `v` is truthy. Otherwise a falsy number is drawn as "0", and `undefined` and "" draw nothing. |
| ProjectCardEnhanced.StarsChildIsAnd | components/portfolio/project-card-enhanced.tsx:84 | The as-written stars child is exactly React's rendering of `stats.stars && row`. |
| ProjectCardEnhanced.DownloadsChild | components/portfolio/project-card-enhanced.tsx:90 | The downloads row shows iff the downloads text is present and non-empty. |
| ProjectCardEnhanced.DownloadsChildIsAnd | components/portfolio/project-card-enhanced.tsx:90 | The downloads child is exactly React's rendering of `stats.downloads && row`, so it never draws stray text. |
| Badge.ReplaceFirst | components/ui/badge.tsx:91 | Only the first occurrence of the pattern is replaced. Without an occurrence the string is unchanged. |
| Badge.Capitalize | components/ui/badge.tsx:96 | The first character is upper-cased and the rest is kept. |
| Badge.StatusLabel | components/ui/badge.tsx:96 | The label. It is characterised by StatusLabelFacts. |
| Badge.StatusLabelFacts | components/ui/badge.tsx:96 | A non-empty label is shown as is. Otherwise the status is shown with its first letter upper-cased, which lower-cases back to the status. |
| Badge.DefaultLabels | components/ui/badge.tsx:96 | The default labels are Active, Inactive, Pending and Completed. |
| Badge.CapitalizeLower | components/ui/badge.tsx:96 | Capitalising a lower-case word gives an upper-case first letter, and lower-casing the result gives the word back. |
| Badge.ColorIsTextShade | components/ui/badge.tsx:80-83 | Each status's text colour class is "text" followed by its colour and shade (green, gray, yellow or blue, 400). |
| Badge.DotClassIsBackground | components/ui/badge.tsx:80-91 | The dot class replaces the leading "text" with "bg", so the dot has the text's colour and shade as a background. |
| Badge.DotClass | components/ui/badge.tsx:91 | The dot class. It is characterised by DotClassIsBackground. |
| Badge.PulseStatuses | components/ui/badge.tsx:80-92 | The dot pulses iff the status is active or pending. |
| Badge.RenderBadge | components/ui/badge.tsx:32-67 | Variant defaults to default and size to md. The icon span is rendered iff an icon is given. The badge is wrapped in motion iff `animated`. |
| Badge.BadgeDefaults | components/ui/badge.tsx:32-40 | Omitting `variant`, `size` or `animated` is the same as passing default, md or false. |
| Badge.RenderTag | components/ui/badge.tsx:111-135 | The variant defaults to default. A remove button labelled "Remove <label>" is shown iff `onRemove` is given. |
| Badge.TagDefaults | components/ui/badge.tsx:111-135 | Omitting the tag's `variant` is the same as passing default. The remove button is labelled "Remove " followed by the tag text. |

## Left out

- Real timers and wall-clock periods: every timer is an ordered stream of abstract firings.
  The boot settle timeout is modelled as a pending count. It is deliberately not cancelled
  on teardown, because the code does not cancel it.
- Rendering and styling: JSX, Tailwind classes other than the few predicates above, and
  the framer-motion variant tables and scroll transforms are static data with no
  behaviour.
- DOM, scroll and pointer plumbing: element rectangles and `scrollY` are integers passed
  in by the caller. The scroll listener registration is not modelled.
- `Date.now` timestamps, the `isDev` flag and the development logger of the error handler;
  the `context` record is modelled as a map of strings.
- Toast ids built from `Date.now` and `Math.random`: they are parameters.
- The URL pattern of the validation constants, and the floating-point performance
  threshold.
- JavaScript numbers: integers only. NaN and fractional star counts, durations and status
  codes are not modelled.
- Unicode: `\s`, `toLowerCase`, `toUpperCase` and string lengths are modelled over ASCII only.
- The column-span class that the grid passes to the plain card, which does not accept a
  `className` prop: the span is modelled as a computed value only.
- The older plain navigation bar duplicates only the scroll threshold and the menu toggle,
  and it imports a name the data module does not export. It is not part of this model.
- `ContactSection.Press`: the browser's constraint validation is reduced to the three
  `required` flags and the HTML standard's "valid e-mail address" over ASCII, with its
  63-character label limit. The browser's newline normalisation of the textarea value is
  not modelled, and neither is the validation bubble it shows.
- `Badge.RenderBadge`: `icon` is reduced to whether it is truthy, and the passed-through
  HTML attributes and class names are not modelled.

## Findings

| source | as written | input that shows it | evidently intended | confidence | as-written member | corrected member |
|---|---|---|---|---|---|---|
| components/portfolio/project-card-enhanced.tsx:84 | `{stats.stars && <row/>}` evaluates to the number 0 for a zero count, and React renders that as the text "0" | a featured card with `stats = { stars: 0 }` | no stars row and no stray text for a zero count | medium, not executed | ProjectCardEnhanced.Card, ProjectCardEnhanced.StarsChildAsWritten, ProjectCardEnhanced.StrayZero | ProjectCardEnhanced.CorrectedCard, ProjectCardEnhanced.StarsChild |
