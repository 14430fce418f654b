# Portfolio section navigator and text effects, modelled in Dafny

This project models the client-side logic of a single-page portfolio site.

**Section navigator.** `PortfolioScroller` in `documents/script.js` keeps one
integer of state, the current section. It moves over a fixed list of
full-viewport section elements in three ways:

- a bounded jump: a click on an indicator or nav link, or a digit key;
- a clamped step: the wheel, the paging and arrow keys, or a touch swipe;
- a re-sync from the scroll position, which tests which section's span holds
  the viewport midpoint.

The "active" flags of the section indicators and nav links mirror the current
section. A section that becomes current through a re-sync replays its entrance
animation: each animatable child gets a staggered restore task.

**Text effects.** `documents/authentic_portfolio.js` holds the loading screen's
glitch reveal. In each tick of an interval, every position of the message shows
either its real character or a random scramble character; the real character
appears once the frame fraction exceeds the position fraction. The same file
has the hero title's typing effect: each character is shown first as a scramble
character and then replaced by the real one.

Modules:

- `Navigation` (navigation.dfy): the navigator on values. It defines the jump
  and step targets, the containment test, the index a re-sync ends on, the
  transitions it makes, and the entrance-animation schedule, with lemmas about
  each.
- `Input` (input.dfy): how a wheel delta, a key name and a swipe become a
  navigation request (`Next`, `Prev`, `Jump(k)` or `Stay`).
- `Scroller` (scroller.dfy): class `PortfolioScroller`. `currentSection` is an
  integer field, the indicator and nav-link flags are `array<bool>`, and the
  scheduled animation tasks are a `seq<Task>`. Every method is specified
  against the `Navigation` and `Input` functions.
- `Reveal` (reveal.dfy): the per-position reveal test, stated exactly on
  integers, and the frame string it produces, with the prefix and
  monotonicity lemmas.
- `Loading` (loading.dfy): class `GlitchAnimation` (one `Tick` per interval
  firing) and class `TitleTyping` (one `Step` and one `Settle` per character).

Inputs from the browser are parameters:

- section geometry is a sequence of `Section(top, height, animated)`. The
  source re-reads each section's offsets and animatable children on every
  call, and they change when the window is resized. So every re-sync takes
  the geometry of that moment as an argument, and only the number of
  sections is fixed in the object;
- the viewport is `Viewport(scrollY, innerHeight)`;
- the wheel delta, key name and touch coordinates are plain values;
- each random scramble choice is an index into `GlitchChars`.

The viewport midpoint `scrollY + innerHeight / 2` can be a half pixel, so the
containment test compares doubled coordinates. The reveal test
`frame / totalFrames > i / len` is compared as `frame * len > i * totalFrames`.
When `totalFrames` is 0 it follows JavaScript's division instead: `0 / 0` is NaN
and compares false, and a positive frame over 0 is +Infinity.

### Behaviours of the code worth knowing

- **Re-sync is not idempotent on a shared boundary.** One might expect a
  second re-sync at the same scroll position to do nothing. The containment
  test in documents/script.js:173 includes both ends, so when the midpoint
  sits exactly on a boundary shared by two sections, both contain it. The loop
  then moves to the earlier section and back to the later one on every scroll
  event. Each of these moves
  refreshes the flags and replays that section's entrance animation.
  `Navigation.ResyncStableIff` proves that a second re-sync changes nothing
  exactly when at most one section contains the midpoint, and
  `Navigation.BoundaryFlipScenario` shows the flip on two sections.
- **The digit test is a string comparison.** The keydown code tests
  `key >= '1' && key <= '5'` on strings. This admits every key name whose first
  character is '1' to '4', and also "5". The request is then `parseInt(key) - 1`.
  The model keeps the string comparison and the leading-digit parse.
  `Input.DigitKeyJump` proves that a single digit d asks for section d - 1 and
  that no key asks for a negative index.
- **"Exactly one active" depends on the markup.** After an in-range jump, the
  flags hold exactly at the new index (`Mirrors(k)`). This means one active
  indicator only when the page has at least k + 1 indicators, because the
  indicators, nav links and sections are separate element lists. Before the
  first change, the flags are whatever the markup set.

## Model

| member | source | states |
|---|---|---|
| Scroller.PortfolioScroller.constructor | documents/script.js:3-21 | construction starts at section 0 with the markup's flags, then runs one re-sync on the geometry read at load; the result is the re-sync's index, flags and tasks |
| Scroller.PortfolioScroller.UpdateActiveStates | documents/script.js:183-193 | afterwards exactly the indicator and the nav link at k are active and every other one is inactive |
| Scroller.PortfolioScroller.ScrollToSection | documents/script.js:135-150 | an in-range k becomes current and the flags mirror it; an out-of-range k leaves the index and every flag unchanged |
| Scroller.PortfolioScroller.ScrollToNextSection | documents/script.js:152-157 | the index becomes NextTarget of the old one; a move refreshes the flags; at the last section nothing changes, not even the flags |
| Scroller.PortfolioScroller.ScrollToPrevSection | documents/script.js:159-164 | the index becomes PrevTarget of the old one; a move refreshes the flags; at section 0 nothing changes |
| Scroller.PortfolioScroller.TriggerSectionAnimations | documents/script.js:195-209 | appends one restore task per animatable child that section k has at the time of the call, in element order, with the delays of EntranceTasks |
| Scroller.PortfolioScroller.SyncWithSection | documents/script.js:169-179 | for one section: if its span contains the midpoint it becomes current; only a real change refreshes the flags and schedules its entrance |
| Scroller.PortfolioScroller.UpdateActiveSection | documents/script.js:166-181 | on the geometry read at this call, the index ends as SyncedAfter; flags mirror it if any transition happened and are untouched otherwise; the tasks of every transition are appended in order |
| Scroller.PortfolioScroller.SyncStep | documents/script.js:169-180 | one iteration of the forEach: from the state after sections 0 .. i-1 (SyncedAfter, Transitions and their tasks) to the state after sections 0 .. i; the flags are untouched when section i causes no transition |
| Scroller.PortfolioScroller.OnWheel | documents/script.js:43-51 | the settled wheel callback acts as WheelAction(deltaY): the index, the flag refresh and the no-op cases all follow |
| Scroller.PortfolioScroller.OnKeyDown | documents/script.js:77-89 | the three independent key tests together act as the single request KeyAction(key) |
| Scroller.PortfolioScroller.OnTouchEnd | documents/script.js:120-132 | the touchend callback acts as SwipeAction(startY, endY) |
| Navigation.NextTarget | documents/script.js:152-157 | from a valid index, a step forward moves to cur + 1 when that is a section and stays put otherwise, and the result is still valid |
| Navigation.PrevTarget | documents/script.js:159-164 | from a valid index, a step back moves to cur - 1 when cur > 0 and stays put otherwise, and the result is still valid |
| Navigation.TargetKeepsValid | documents/script.js:135-164 | every request (step forward, step back, jump or nothing) keeps the index in [0, totalSections), or at 0 when there are no sections |
| Navigation.StepRefreshesIffMoves | documents/script.js:152-164 | a step refreshes the flags exactly when it moves the index, so a step past either end does nothing at all |
| Navigation.NextStepsClamp | documents/script.js:152-157 | n forward steps from a valid index land on min(cur + n, totalSections - 1) |
| Navigation.PrevStepsClamp | documents/script.js:159-164 | n backward steps from a valid index land on max(cur - n, 0) |
| Navigation.FiveSectionsScenario | documents/script.js:152-157 | with five sections, four steps from 0 reach 4 and a fifth stays at 4 |
| Navigation.StepsInverse | documents/script.js:152-164 | a step forward that moved is undone by a step back, and the reverse |
| Navigation.JumpTarget | documents/script.js:136-140 | no contract of its own: an in-range index is taken and any other leaves the index alone; TargetKeepsValid and ScrollToSection state it |
| Navigation.Contains | documents/script.js:167-173 | no contract of its own: the inclusive test top <= scrollY + innerHeight / 2 <= top + height, on doubled coordinates; SyncedIsLastContaining and ResyncStableIff state its consequences |
| Navigation.SyncedAfter | documents/script.js:169-179 | the index after the section loop is either the starting index or a section whose span contains the midpoint |
| Navigation.SyncedIsLastContaining | documents/script.js:169-179 | the loop ends on the last containing section, so the later section wins on a shared boundary; if no span contains the midpoint the index is unchanged |
| Navigation.Transitions | documents/script.js:173-178 | every transition is a visited section whose span contains the midpoint |
| Navigation.TransitionsIncreasing | documents/script.js:169-180 | transitions come in strictly increasing index order, so one re-sync replays no section twice |
| Navigation.LastTransitionIsSynced | documents/script.js:173-177 | when any transition happened, the last one is the final index |
| Navigation.NoTransitionsIff | documents/script.js:174-178 | no transition happens exactly when every containing section is already current on reaching it |
| Navigation.ResyncStableIff | documents/script.js:166-181 | a second re-sync at the same scroll position changes nothing exactly when at most one section contains the midpoint |
| Navigation.SyncScenario | documents/script.js:166-181 | five 100px sections, midpoint 250, index 0: the re-sync ends on 2 through the single transition [2] |
| Navigation.BoundaryFlipScenario | documents/script.js:169-180 | two 100px sections with the midpoint on their shared boundary: from section 1 one re-sync switches to 0 and back to 1, and ends where it started |
| Navigation.StaggerDelay | documents/script.js:207 | no contract of its own: the delay index * 100 + 200 ms; EntranceSchedule states its shape |
| Navigation.EntranceTasks | documents/script.js:199-207 | no contract of its own: one task per animatable child in element order; EntranceSchedule states its length, order and delays |
| Navigation.EntranceSchedule | documents/script.js:199-207 | one task per child, in element order; delays start at 200 ms and strictly increase in steps of 100 ms |
| Input.WheelAction | documents/script.js:44-50 | no contract of its own: the wheel callback's request; WheelDirection states it |
| Input.SwipeAction | documents/script.js:121-131 | no contract of its own: the touchend callback's request; SwipeRules states it |
| Input.KeyAction | documents/script.js:78-88 | no contract of its own: the keydown callback's request; KeyTestsExclusive, DigitKeyJump and KeyScenarios state it |
| Input.IsNextKey | documents/script.js:78 | no contract of its own: the ArrowDown / PageDown test; KeyTestsExclusive and KeyScenarios state it |
| Input.IsPrevKey | documents/script.js:82 | no contract of its own: the ArrowUp / PageUp test; KeyTestsExclusive and KeyScenarios state it |
| Input.LexLe | documents/script.js:86 | no contract of its own: JavaScript's lexicographic string order; DigitKeyShape states what it admits here |
| Input.IsDigitKey | documents/script.js:86 | no contract of its own: the digit test as two string comparisons; DigitKeyShape states exactly which keys pass |
| Input.ParseLeadingInt | documents/script.js:87 | no contract of its own: parseInt as the value of the leading digits; DigitKeyJump states its result on digit keys |
| Input.DecimalValue | documents/script.js:87 | no contract of its own: parseInt's digit accumulation, most significant digit first; DecimalValueAtLeastLead and DigitKeyJump state it |
| Input.DigitValue | documents/script.js:87 | no contract of its own: the value of one decimal digit; DigitKeyJump states the single-digit case |
| Input.WheelDirection | documents/script.js:44-50 | a positive deltaY goes to the next section; any other delta, 0 included, goes to the previous |
| Input.SwipeRules | documents/script.js:120-131 | a swipe of at most 50px does nothing; a longer downward one goes back and a longer upward one goes forward, and reversing a swipe reverses the request |
| Input.SwipeUpScenario | documents/script.js:124-130 | an upward swipe of 60px goes to the next section |
| Input.LeadingDigits | documents/script.js:87 | the result is the longest prefix of the key made of decimal digits |
| Input.DigitKeyShape | documents/script.js:86 | the string test admits exactly the keys whose first character is '1' to '4', and "5" |
| Input.KeyTestsExclusive | documents/script.js:77-89 | the next-key, previous-key and digit tests never hold together, so a key issues at most one request |
| Input.DecimalValueAtLeastLead | documents/script.js:87 | the parsed value of a digit run is at least its leading digit |
| Input.DigitKeyJump | documents/script.js:86-88 | a digit key asks for a non-negative section index, and a single digit d asks for section d - 1 |
| Input.KeyScenarios | documents/script.js:77-89 | '3' jumps to section 2; ArrowDown and PageDown step forward; ArrowUp and PageUp step back; other keys do nothing |
| Reveal.TotalFrames | documents/authentic_portfolio.js:12 | the frame count is the floor of duration / interval |
| Reveal.DefaultTotalFrames | documents/authentic_portfolio.js:10-12 | the defaults 2000 ms and 60 ms give 33 frames |
| Reveal.Revealed | documents/authentic_portfolio.js:18 | no contract of its own: the per-position reveal test, exact on integers; RevealedIffBelowCount, NothingRevealedAtStart, AllRevealedAtTotal and RevealGrows state it |
| Reveal.RevealedIffBelowCount | documents/authentic_portfolio.js:18 | the revealed positions of a frame are exactly the first RevealCount positions |
| Reveal.NothingRevealedAtStart | documents/authentic_portfolio.js:18 | frame 0 reveals no position |
| Reveal.AllRevealedAtTotal | documents/authentic_portfolio.js:18 | frame totalFrames reveals every position |
| Reveal.RevealGrows | documents/authentic_portfolio.js:18 | a later frame reveals every position an earlier one did, so the revealed prefix never shrinks |
| Reveal.FrameShape | documents/authentic_portfolio.js:17-24 | a frame string has the target's length, shows the target on its revealed prefix, and shows the picked scramble character at every other position |
| Reveal.FrameText | documents/authentic_portfolio.js:17-24 | no contract of its own: the joined string of one frame; FrameShape states its length, prefix and scramble positions |
| Reveal.FramesKeepRevealed | documents/authentic_portfolio.js:17-24 | whatever scramble characters were drawn, a later frame shows the same target prefix that an earlier frame revealed |
| Reveal.DefaultLastFrames | documents/authentic_portfolio.js:7-12 | for the 21-character loading message under default timing, frame 32 (the last ticked) reveals everything and frame 31 reveals 20 characters |
| Loading.Singletons | documents/authentic_portfolio.js:13 | text.split(''), built by recursion from the left: one one-character string per character of the text, proved pointwise by induction; JoinSingletons states that join('') inverts it |
| Loading.Join | documents/authentic_portfolio.js:24 | no contract of its own: textArray.join(''); JoinSingletons states that it inverts the split |
| Loading.JoinSingletons | documents/authentic_portfolio.js:24 | joining the one-character strings of a text gives the text back |
| Loading.GlitchAnimation.constructor | documents/authentic_portfolio.js:10-15 | the effect starts at frame 0 with totalFrames = floor(duration / interval) and every slot empty |
| Loading.GlitchAnimation.Tick | documents/authentic_portfolio.js:16-31 | each slot holds that position's character of the frame string; the counter advances; the frame string is shown, or the target text once the counter reaches totalFrames and the interval stops |
| Loading.GlitchAnimation.Play | documents/authentic_portfolio.js:16-31 | the ticks run until the interval clears itself, and the element then shows exactly the target text |
| Loading.TitleTyping.constructor | documents/authentic_portfolio.js:104-107 | the title starts empty with the counter at 0 |
| Loading.TitleTyping.Step | documents/authentic_portfolio.js:108-113 | while characters remain, one scramble character is appended after the committed prefix; at the end nothing changes |
| Loading.TitleTyping.Settle | documents/authentic_portfolio.js:114-117 | the last character is replaced by finalText[i] and i advances, so the title is the first i characters of the text |
| Loading.TitleTyping.TypeAll | documents/authentic_portfolio.js:107-122 | the step chain stops with i = length and the title equal to the whole text |
| Loading.TypeHeroTitle | documents/authentic_portfolio.js:100-123 | typing "Welcome to my portfolio" into the cleared hero title leaves exactly that text, with the counter at its length |

## Left out

- DOM plumbing: element queries, `scrollIntoView`, `window.scrollTo`, the style writes in `setupScrollNavigation`, and the hamburger menu toggles. These are browser I/O; only the index, the flags and the task list are modelled.
- The opacity and transform resets in `triggerSectionAnimations` are left out. Each deferred restore is modelled as a `Task` with its delay; the restore itself is not.
- Timers: the 50 ms wheel debounce, the `setTimeout` chains and the `setInterval` scheduling. Each callback is a method. `Play` and `TypeAll` stand in for the timer repeating; they assume no other event interleaves with the ticks.
- `startTypingAnimation` (documents/script.js:211-230) is a cosmetic timer effect on a fixed string.
- `setupIntersectionObserver`, `preloadImages` and the fade-in observer of documents/authentic_portfolio.js:77-98 are left out because they are browser APIs.
- `handleFormSubmit` is a mock submission made only of DOM writes and timers.
- The loading-screen creation and removal, the anchor-link handlers, the 70px-offset nav-link scroll and the global `nextSlide` / `prevSlide` / `goToSlide` wrappers are left out. They are browser wiring or thin wrappers. An indicator or nav-link click is `ScrollToSection(index)` itself.
- documents/coe.js is not part of this model. It holds floating-point demo arithmetic and console output, with no navigation logic.
- The `isScrolling` and `scrollTimeout` fields are never read by the source, so they are not modelled.
- `Math.random()` is left out. Each scramble choice is an input index into `GlitchChars`.
- Coordinates, wheel deltas and touch positions are integers; fractional pixel values are not modelled.
- Reveal.Revealed: the test is exact rational comparison. The source compares two IEEE doubles, which agree with it for the small frame counts and text lengths involved.
- Input.ParseLeadingInt: this is exact for digit runs of any length. The source's `parseInt` loses precision beyond 2^53, which no key name reaches.
- Reveal.FrameText, Loading.GlitchAnimation and Loading.TitleTyping treat a text as a sequence of Unicode characters. `split('')`, `length` and `charAt` count UTF-16 code units instead. The two agree on the ASCII strings the page passes, and they differ only for characters outside the Basic Multilingual Plane.
- Input.LexLe compares characters by code point, where JavaScript compares UTF-16 code units. The two orders differ only outside the Basic Multilingual Plane, and no navigation key lies there.
- Reveal.TotalFrames and Loading.GlitchAnimation.constructor require a positive interval. A zero or negative interval, which gives an infinite or negative frame count in the source, is not modelled.
