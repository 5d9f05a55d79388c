# A verified model of two small site scripts

The repository holds two browser scripts for a consultancy website.

`tyh.js` does four things:
- it validates form fields when they lose focus;
- it animates the statistics counters when they come into view, each one once;
- it types out the hero title one character at a time;
- it runs the hamburger menu, the navbar's scroll behaviour and the consultation modal.

`script.js` runs a single-page layout:
- nav links and call-to-action buttons switch the visible section after a 50 ms timer;
- a mobile drawer has a menu icon that follows its state;
- the header gets a `scrolled` class;
- statistics counters restart on every intersection of their section.

This project models that logic in Dafny and proves what the scripts promise about it.

Events are modelled as they reach the handlers:
- clicks, key presses and scroll positions;
- intersection entries, each reduced to an element and a flag;
- timer ticks.

An interval or timeout becomes one loop iteration, or one `Tick`, per firing.

The navigation bar (`Nav`), the modals (`Modals`) and the single-page view (`View`) are each modelled twice:
- pure transition functions over a datatype, about which the lemmas are stated;
- a class whose mutating methods are each proved equal to the matching function (`Model() == F(old(Model()))`).

The other stateful parts have a different shape:
- The two observers and the form field are classes whose methods state their new fields directly.
- The counter and typing loops are methods proved equal to specification functions of their inputs.

Modelling assumptions, taken from the DOM rather than proved:
- Assigning a value to the `project-type` select (`SiteChrome.Assign`) selects the option with that value. When no option has the value, the select's value reads `""`.

Files and modules:

- `wrappers.dfy` (`Wrappers`): `Option`.
- `js_text.dfy` (`JsText`): the JavaScript built-ins the scripts rely on:
  - `\s` and `String.prototype.trim`, over the white-space set of ECMAScript;
  - `indexOf`, and `replace` with a one-character pattern;
  - `getElementById` as the first match;
  - `parseInt` with no radix: leading white space, a sign, `0x`, then the longest run of digits;
  - the decimal text of an integral Number.
- `ramp.dfy` (`Ramp`): the arithmetic shared by both counters, with exact rationals.
- `viewport.dfy` (`Viewport`): intersection entries.
- `stats_animator.dfy` (`StatsAnimator`): the `animateCounters` loop of `script.js`, which runs 100 steps and keeps `+` and `%`, and the fade-in observer callback.
- `animations.dfy` (`Animations`): from `tyh.js`:
  - `animateCounter`, which runs 50 steps, clamps to the target and keeps only `+`;
  - the statistics observer, which unobserves each element once it has started;
  - `typeWriter`.
- `form_validation.dfy` (`FormValidation`): `validateField`, covering both the verdict and the error marker.
- `site_chrome.dfy` (`SiteChrome`): from `tyh.js`:
  - the hamburger/menu toggle and the navbar scroll rule;
  - `openModal`, `closeModal`, the Escape handler and the backdrop click.
- `view_router.dfy` (`ViewRouter`): the section, drawer, header and CTA handlers of `script.js`. The 50 ms activation timers become a list of pending activations that timer ticks drain in order.

The counter arithmetic differs from the JavaScript in two ways:
- it is exact (`real`), where JavaScript uses IEEE doubles;
- `Math.floor` is `.Floor`.

So `k` ticks of `target / steps` sum to exactly `k * target / steps`. A positive target is reached at tick `steps`, and a target of zero or below is reached at the first tick.

## Model

| member | source | states |
|---|---|---|
| JsText.SkipSpace | tyh.js:298 | the index of the first non-white-space character at or after `i` (or the end); everything skipped is white space |
| JsText.SkipSpaceBack | tyh.js:298 | the index just after the last non-white-space character before `j`, no lower than `lo`; everything skipped is white space |
| JsText.Trim | tyh.js:298 | `value.trim()`, defined from the two scans; what it returns is stated by `TrimSpec`, `TrimIdempotent` and `TrimEmptyIff` |
| JsText.TrimSpec | tyh.js:298 | `trim` returns a slice of the text; every character it drops, before or after, is white space; and the result neither starts nor ends with white space |
| JsText.TrimIdempotent | tyh.js:298 | trimming a trimmed value changes nothing |
| JsText.TrimEmptyIff | tyh.js:326 | the trimmed value is empty (`!value`) exactly when the raw value is all white space |
| JsText.IndexOf | tyh.js:129 | the position of the first occurrence: the element is there and not before it |
| JsText.Find | tyh.js:207 | `getElementById`: `None` exactly when no element has the id, and otherwise the first position holding it |
| JsText.RemoveFirst | tyh.js:129 | `replace("+", "")`: deletes the first occurrence only; stated by `RemoveFirstSpec` |
| JsText.RemoveFirstSpec | tyh.js:129 | `replace("+", "")` deletes exactly one `+`, the first: the text is unchanged without one; otherwise the result is one shorter, has no `+` before the first one's place, putting `+` back at that place rebuilds the text, and the result's multiset is the text's less one `+` |
| JsText.NatToString | script.js:120-121 | the decimal text of a natural number is non-empty, all digits, and has no leading zero |
| JsText.IntToString | script.js:120-129 | the text of an integer holds no `+` and no `%`, and starts with `-` or a digit |
| JsText.DigitValue | script.js:113 | a character's value as a radix-36 digit lies in -1..35, and is 0..9 exactly for the decimal digits |
| JsText.DigitPrefix | script.js:113 | `parseInt` consumes the longest prefix made of digits of the radix: all its characters are digits, and the next one is not |
| JsText.UnsignedPart | script.js:113 | the result is a suffix of the text, one character shorter exactly when the text starts with `-` or `+`, and the whole text otherwise |
| JsText.Radix | tyh.js:129 | `parseInt` without a radix reads radix 10 or 16; what it reads in radix 16 after `0x`/`0X` is `HexReadsBack`, in radix 10 `MagnitudeOfDigits` |
| JsText.HexBody | tyh.js:129 | in radix 10 the digits are read from the text itself; in radix 16 the text is `0x` or `0X` followed by the part the digits are read from |
| JsText.HexReadsBack | tyh.js:129 | after `0x` or `0X`, a run of hex digits followed by nothing or a non-hex character reads as that run's radix-16 value |
| JsText.HexExamples | tyh.js:129 | `parseInt("-0x1F")` is -31 and `parseInt("0Xff!")` is 255 |
| JsText.DigitPrefixOfDigits | script.js:113 | reading stops exactly at the first non-digit after a digit string |
| JsText.NatToStringValue | script.js:113 | the digits of a natural number's text are worth that number |
| JsText.MagnitudeOfDigits | script.js:113 | a number's digits, followed by nothing or by a character that is neither a decimal digit nor `x`/`X`, read back in radix 10 as the number |
| JsText.TrimStartKeeps | script.js:113 | text that does not start with white space is not changed by `parseInt`'s skipping |
| JsText.ParseInt | script.js:113 | `parseInt` without a radix: leading white space skipped, one sign, `0x`/`0X` for radix 16, then the longest digit run, and `None` (NaN) when it is empty; its round trip with the integer text is `ParseIntToString`, and its hex path is `HexReadsBack` |
| JsText.ParseIntToString | script.js:113 | round trip: `parseInt(String(n) + rest)` is `n` for every integer `n` and any `rest` that is empty or starts with a character that is neither a decimal digit nor `x`/`X` (a letter such as `k` included) |
| Ramp.Total | script.js:115-118 | `current`, starting at 0 and incremented by `target / steps` per tick; equal to `k * (target / steps)` by `TotalIsProduct` |
| Ramp.Shown | script.js:127 | `Math.floor(current)` after tick `k`; bounded by `Crossing` and ordered by `RampedMonotone` |
| Ramp.TotalIsProduct | script.js:114-118 | after `k` ticks the running total is `k * (target / steps)` |
| Ramp.Crossing | script.js:118-119 | for a positive target the total reaches the target exactly at tick `steps`, and the floored total before that is below the target |
| Ramp.FirstTickReaches | tyh.js:133-134 | for a target of zero or below the first tick already reaches it |
| Ramp.RampedBelow | script.js:125-127 | before tick `steps` every number shown is below a positive target |
| Ramp.RampedMonotone | script.js:126-127 | for a target that is not negative the numbers shown are at least 0 and never decrease |
| Ramp.RampThenTargetMonotone | script.js:119-127 | the ramp followed by the exact target never decreases |
| Ramp.Ticks | script.js:117-124 | the interval runs between 1 and `steps` ticks, and exactly 1 when the target is not positive (or `steps` is 1) |
| Ramp.CounterValues | script.js:117-131 | one number per tick, the last being exactly the target |
| Ramp.CounterValuesShape | script.js:119-130 | every number before the last is below the target; for a target that is not negative they are at least 0 and never decrease |
| Ramp.Render | script.js:120-129 | one frame per number shown |
| Ramp.RenderSnoc | script.js:120-129 | a new tick appends the text of its number followed by the suffix |
| Ramp.RenderAt | script.js:120-129 | frame `k` is the decimal text of number `k` followed by the suffix |
| Ramp.TickOutcome | script.js:118-130 | at each tick the total reaches the target exactly at the last tick, and the number shown is the floored total before it and the target at it |
| Viewport.IntersectingTargets | tyh.js:145-148 | at most one target per entry, holding exactly the intersecting elements; entry order is stated by `IntersectingTargetsSingle` and `IntersectingTargetsAppend` |
| Viewport.IntersectingTargetsSingle | tyh.js:145-148 | one entry yields its target when it intersects and nothing otherwise |
| Viewport.IntersectingTargetsAppend | tyh.js:145-148 | the targets of two consecutive entry lists are those of the first followed by those of the second, so each intersecting entry contributes once, in entry order |
| StatsAnimator.Suffix | script.js:122-123 | the two `includes` tests: `+` then `%`, each when the text has one; its shape is `SuffixShape` |
| StatsAnimator.SuffixShape | script.js:122-123 | the kept suffix is `""`, `+`, `%` or `+%`; it has a `+` exactly when the text does and a `%` exactly when the text does, and does not start with a digit |
| StatsAnimator.SuffixOfFrame | script.js:126-129 | a frame has the same suffixes as the text it replaces, so they survive every tick |
| StatsAnimator.AnimateCounter | script.js:112-131 | the counter shows exactly `CounterValues(parseInt(text), 100)`, each followed by the original text's suffixes |
| StatsAnimator.RunInterval | script.js:114-131 | the interval loop adds `target / 100` per tick until the total reaches the target, and then shows the target and stops |
| StatsAnimator.FramesReadBack | script.js:119-130 | each frame is a number's text plus the original suffixes; its suffixes are the original ones, and `parseInt` of the frame is that number |
| StatsAnimator.StatsHits | script.js:143-146 | the number of counter restarts in a batch is at most its size, and zero exactly when no entry is an intersecting statistics section |
| StatsAnimator.PageObserver.constructor | script.js:154-159 | nothing is revealed and no counter has started |
| StatsAnimator.PageObserver.OnEntries | script.js:141-151 | every intersecting entry reveals its element, and every intersecting statistics section restarts the counters |
| StatsAnimator.RepeatedEntries | script.js:141-146 | delivering the same entries twice reveals nothing new but doubles the restarts, since nothing is unobserved |
| StatsAnimator.StatsHitsAppend | script.js:142-146 | restarts add up over consecutive batches |
| Animations.PlusSuffix | tyh.js:139 | the `includes("+")` test; frames keep it by `PlusOfFrame` |
| Animations.Target | tyh.js:129 | `parseInt(element.textContent.replace("+", ""))`; a frame's target is its number by `FrameReadsBack` |
| Animations.PlusOfFrame | tyh.js:138-139 | a frame has a `+` exactly when the text it replaced did |
| Animations.AnimateCounter | tyh.js:128-140 | the counter shows exactly `CounterValues(parseInt(text without its first +), 50)`, each followed by `+` when the text had one |
| Animations.RunInterval | tyh.js:130-140 | the interval loop adds `target / 50` per tick, clamps to the target once it reaches it, and clears the interval |
| Animations.FramesReadBack | tyh.js:129-139 | each frame is a number's text, with `+` exactly when the original had one and never `%`; and the target read from a frame is that number |
| Animations.FrameReadsBack | tyh.js:129-139 | the text of a number with or without a trailing `+` has `+` exactly when appended, has no `%`, and its target is the number |
| Animations.RemoveTrailingPlus | tyh.js:129 | removing the first `+` of a number's text followed by `+` gives the number's text |
| Animations.StartedOncePreserved | tyh.js:144-151 | starting and unobserving each intersecting element keeps every counter started at most once, with no started element still observed |
| Animations.StatsObserver.constructor | tyh.js:153-155 | every statistic is observed and none has started |
| Animations.StatsObserver.OnEntries | tyh.js:144-151 | the intersecting elements start their counters in entry order and are no longer observed; on entries the browser can deliver, no counter starts twice |
| Animations.TypeWriter | tyh.js:158-171 | the title is emptied; after `k` calls it holds the first `k` characters; it ends with the whole text, after one frame per character |
| FormValidation.EmailPattern | tyh.js:312 | the e-mail expression: some `@` and `.` split the text into three non-empty runs free of white space and `@` |
| FormValidation.ValidEmail | tyh.js:312-313 | the e-mail rule read by positions: first `@`, nothing after it an `@`, a `.` strictly inside the domain; equal to the expression by `EmailPatternIff` |
| FormValidation.PhonePattern | tyh.js:319 | the telephone expression as an alternation: a run of ten or more class characters, alone or after one `+` |
| FormValidation.ValidPhone | tyh.js:319-320 | the telephone rule read directly: one leading `+` stripped, then a run; equal to the expression by `PhonePatternIff` |
| FormValidation.EmailPatternIff | tyh.js:312-313 | the e-mail expression matches exactly when there is no white space, exactly one `@` with something before it, and after it a `.` that is neither its first nor its last character |
| FormValidation.ValidEmailMatches | tyh.js:312 | a text with that shape splits into the expression's three runs |
| FormValidation.MatchIsValidEmail | tyh.js:312 | a match of the expression has that shape |
| FormValidation.PhonePatternIff | tyh.js:319-320 | the telephone expression matches exactly an optional `+` followed by at least ten digits, white space, `-`, `(` or `)` |
| FormValidation.Check | tyh.js:310-330 | e-mail and tel fields are valid exactly when the trimmed value matches their expression; other fields are invalid exactly when required and blank; each failure carries its message |
| FormValidation.CheckSeesTrimmedValue | tyh.js:298 | surrounding white space never changes the verdict |
| FormValidation.TypedFieldsRejectBlank | tyh.js:310-324 | blank e-mail and tel fields fail even when not required |
| FormValidation.AcceptsPlainAddress | tyh.js:312-316 | `user@example.com` is accepted |
| FormValidation.RejectsMalformedAddresses | tyh.js:312-316 | `user@`, `user example.com` and `@example.com` are rejected |
| FormValidation.PhoneExamples | tyh.js:319-323 | `+1 (555) 123-4567` is accepted and `12345` rejected |
| FormValidation.FormField.Validate | tyh.js:297-345 | the `error` class is removed, then re-added exactly when the verdict is invalid; the first error message under the parent is removed and one is appended exactly when invalid; and the verdict is returned |
| FormValidation.ValidateTwice | tyh.js:302-307 | validating twice leaves one message or none, never two |
| SiteChrome.NavStep | tyh.js:25-61 | one hamburger click, menu-link click or scroll event on the navigation state; its laws are `MenuStaysInSync`, `MenuClicks`, `ScrollRule` and `ScrollUpShows` |
| SiteChrome.MenuStaysInSync | tyh.js:25-37 | the hamburger's and the menu's `active` flags stay equal under any events |
| SiteChrome.MenuClicks | tyh.js:26-36 | two hamburger clicks restore the state; a menu link clears both flags, and a second one changes nothing; without both elements nothing is wired |
| SiteChrome.ScrollRule | tyh.js:41-61 | after scrolling, the navbar is dense exactly when `scrollY > 100`, hidden exactly when `scrollY` exceeds the previous event's and 200, and `lastScrollY` is the last position |
| SiteChrome.ScrollUpShows | tyh.js:54-58 | scrolling up or standing still shows the navbar |
| SiteChrome.Navigation.constructor | tyh.js:19-41 | the two `active` flags are the markup's, the inline styling is unset, and `lastScrollY` is the page position |
| SiteChrome.Navigation.ClickHamburger | tyh.js:26-29 | the state becomes `NavStep(old, HamburgerClick)` |
| SiteChrome.Navigation.ClickMenuLink | tyh.js:33-36 | the state becomes `NavStep(old, MenuLinkClick)` |
| SiteChrome.Navigation.OnScroll | tyh.js:42-61 | the state becomes `NavStep(old, Scroll(y))` |
| SiteChrome.OpenTarget | tyh.js:199-206 | `openModal`'s map sends a type to the consultation modal exactly when it is one of the four service types |
| SiteChrome.CloseTarget | tyh.js:231-235 | `closeModal`'s map sends a type to the consultation modal exactly when it is "consultation" |
| SiteChrome.Open | tyh.js:198-227 | `openModal`: the mapped modal shown, overflow `hidden`, `project-type` assigned for a type other than "consultation", and nothing when no modal has the id; stated by `ServicesOpenConsultation` and `OpenThenClose` |
| SiteChrome.Close | tyh.js:230-242 | `closeModal`: the mapped modal hidden and overflow `auto`, or nothing; stated by `CloseIgnoresOtherKeys` and `OpenThenClose` |
| SiteChrome.EscapeAll | tyh.js:188-194 | the Escape handler's `forEach`: every modal `display: none`; stated by `EscapeHidesAll` |
| SiteChrome.BackdropClick | tyh.js:179-185 | the modal's own click handler: hides it when the click's target is the modal itself; stated by `BackdropHidesOnlyItself` |
| SiteChrome.ServicesOpenConsultation | tyh.js:198-219 | every service type shows the consultation modal and hides the body's overflow; `project-type` is prefilled exactly when the type is not "consultation" |
| SiteChrome.CloseIgnoresOtherKeys | tyh.js:230-242 | `closeModal` with any type other than "consultation" changes nothing, provided no modal has the id "undefined" (the id the failed lookup produces) |
| SiteChrome.BackdropHidesOnlyItself | tyh.js:179-185 | a click on a modal's backdrop hides that modal and no other; a click inside it changes nothing; the body's overflow and the select are untouched either way |
| SiteChrome.OpenThenClose | tyh.js:198-242 | closing after opening hides the modal again and sets overflow to `auto` |
| SiteChrome.EscapeHidesAll | tyh.js:188-194 | Escape hides every modal, is idempotent, and leaves the body's overflow as it was, so it stays `hidden` after an open |
| SiteChrome.ModalPage.constructor | tyh.js:175-176 | every `.modal` starts with the inline display its markup gives it, and the body's overflow is unset |
| SiteChrome.ModalPage.OpenModal | tyh.js:198-227 | the page becomes `Open(old, type)` |
| SiteChrome.ModalPage.CloseModal | tyh.js:230-242 | the page becomes `Close(old, type)` |
| SiteChrome.ModalPage.Escape | tyh.js:188-194 | the page becomes `EscapeAll(old)` |
| SiteChrome.ModalPage.Click | tyh.js:179-185 | the page becomes `BackdropClick(old, i, onBackdrop)` |
| ViewRouter.NavClick | script.js:14-41 | the nav-link handler: all cleared, the link marked, the drawer closed, the section queued; stated by `NavClickImmediate` |
| ViewRouter.Toggle | script.js:45-48 | the menu button's handler; stated by `ToggleTwice` |
| ViewRouter.DocumentClick | script.js:51-56 | the document's click handler; stated by `CloseIdempotent` |
| ViewRouter.EscapeKey | script.js:174-179 | the keydown handler; stated by `CloseIdempotent` |
| ViewRouter.Scroll | script.js:61-71 | the scroll handler; stated by `HeaderFollowsLastScroll` |
| ViewRouter.MarkTagged | script.js:86-91 | `querySelector` on the `data-section` value, and `active` on the element found, if any: a nav link in the link list, a `.section` in the section list, anything else in `extra`; stated by `CtaWithSection` |
| ViewRouter.CtaClick | script.js:76-105 | the CTA handler; stated by `CtaWithoutSection` and `CtaWithSection` |
| ViewRouter.Tick | script.js:28-30 | the earliest pending 50 ms timer fires; all of them together are `Flush` |
| ViewRouter.Step | script.js:13-179 | one event: the element's handler, then for clicks the document's; kept consistent by `StepFits` |
| ViewRouter.FirstTagged | script.js:86-88 | `querySelector` returns the first element carrying the value, or none exactly when no element carries it |
| ViewRouter.ClearAll | script.js:17-19 | no link and no section is active, and both lists keep their lengths |
| ViewRouter.Flush | script.js:28-30 | once every pending timer has fired, a section is active exactly when it was active or pending, and nothing else changes |
| ViewRouter.StepFits | script.js:13-106 | every handler keeps the state consistent with the document |
| ViewRouter.Run | script.js:13-179 | any run of events keeps the state consistent with the document |
| ViewRouter.NavClickImmediate | script.js:17-34 | right after a nav-link click no section is active; the clicked link is the only active link; the drawer is closed with "☰"; and the link's section is queued after the pending ones |
| ViewRouter.NavClickSettles | script.js:25-30 | with no timer pending, once the click's timer fires, exactly the section named by the link is active |
| ViewRouter.OverlappingClicks | script.js:25-30 | two clicks before either timer fires leave both sections active, while only the second link is active |
| ViewRouter.RepeatedClickIdempotent | script.js:17-30 | clicking the same link again after its timer fired changes nothing |
| ViewRouter.ToggleTwice | script.js:45-48 | after a toggle the icon is "✕" exactly when the drawer is open; two toggles restore the state exactly when the icon was in step |
| ViewRouter.CloseIdempotent | script.js:51-56 | an outside click or Escape closes the drawer with "☰" whatever its state, changes nothing else, and is idempotent |
| ViewRouter.IconStaysInSync | script.js:32-56 | every event keeps the icon in step with the drawer |
| ViewRouter.HeaderFollowsLastScroll | script.js:61-71 | the header is `scrolled` exactly when the latest `scrollY` exceeds 50, and `lastScrollY` is that position |
| ViewRouter.CtaWithoutSection | script.js:77-78 | a CTA without a `data-section` value has no effect of its own |
| ViewRouter.CtaWithSection | script.js:77-97 | a CTA with a section: every link and section is cleared; then the first element carrying the value is the only active link or section (or is added to `extra` when it is neither); the section is queued; the drawer is untouched |
| ViewRouter.Router.constructor | script.js:5-10 | the script sets no class at load: the active links and sections, the drawer, the icon and the header class are the markup's, no timer is pending, and `lastScrollY` is the page position |
| ViewRouter.Router.ResetActive | script.js:18-19 | the two `forEach` loops leave the page at `ClearAll(old)` |
| ViewRouter.Router.BubbleToDocument | script.js:51-56 | the page becomes `DocumentClick(old, insideNav)` |
| ViewRouter.Router.ClickNavLink | script.js:14-41 | the page becomes `Step(old, NavLinkClick(i, insideNav))` |
| ViewRouter.Router.ClickMenuButton | script.js:45-48 | the page becomes `Step(old, MenuButtonClick(insideNav))` |
| ViewRouter.Router.ClickCta | script.js:76-105 | the page becomes `Step(old, CtaButtonClick(attr, insideNav))` |
| ViewRouter.Router.ClickElsewhere | script.js:51-56 | the page becomes `Step(old, OtherClick(insideNav))` |
| ViewRouter.Router.KeyDown | script.js:174-179 | the page becomes `Step(old, Key(key))` |
| ViewRouter.Router.OnScroll | script.js:61-71 | the page becomes `Step(old, WindowScroll(y))` |
| ViewRouter.Router.FireTimer | script.js:28-30 | the earliest pending activation fires |
| ViewRouter.Router.FireAllTimers | script.js:28-30 | every pending activation fires, those queued by nav links (these lines) and by CTAs (lines 95-97) alike: the page becomes `Flush(old)` |

## Left out

- Floating point: the counters use exact rationals, and IEEE doubles differ from them in two ways. The sum of `target / steps` can fall just short of the target and need one more tick. Intermediate frames can differ too: ten additions of 0.1 give 0.9999999999999999, so for the text "5" `tyh.js` shows 0 at tick 10 where `Shown(5, 50, 10)` is 1. Neither is modelled.
- NaN targets: `parseInt` gives NaN when the digit run after the white space, the sign and any `0x` is empty, as for `"abc"`, `"x5"` and `"- 5"`. NaN never compares `>=` to the target, so the interval never stops. This is excluded by requiring `parseInt` to succeed.
- Large integers: `parseInt` and the integer text assume exact integers. Values beyond 2^53, and exponent notation in `String(n)`, are not modelled.
- Timers: durations (20, 40, 50, 300 and 500 ms) are left out. Intervals and timeouts are ticks.
- Restarted counters: counters restarted while still running would interleave, in `script.js`. Each run of `animateCounters` is modelled on its own, and the observer counts restarts.
- Observer geometry: thresholds and root margins are left out. An entry is an element and a flag.
- Observers not modelled: the fade-in observer of `initScrollEffects`, including its animation delays. The `animate-in` observer and its injected CSS are not modelled either.
- Other features: parallax, notifications, form submission, analytics, lazy image loading and smooth scrolling are not modelled. Neither are `window.scrollTo`, the focus timeout in `openModal`, body opacity or hover effects.
- ViewRouter.NavClick: the model looks the link's id up among the `.section` elements only, taking the first with that id. `getElementById` searches the whole document. So when an element outside the sections carries the id and comes earlier in the document, the timer activates that element, and the model does not capture this. When no element has the id, the timer callback throws on `null`. The model requires the id to belong to a section (`NavTargetExists`).
- ViewRouter.CtaClick: the same holds for a CTA's target. The model looks it up among the sections and requires it to be there (`CtaTargetExists`). A `data-section` value with `"` makes the attribute selector throw. With `\` the selector usually reads a CSS escape and matches a different value (`a\b` looks for "a" followed by U+000B); it throws only when the escape swallows the closing quote. Values are taken literally.
- SiteChrome.OpenTarget: prototype keys such as `toString` are not modelled, so any key other than the four types looks up the id "undefined".
- SiteChrome.ModalPage: an element outside `.modal` that carries the looked-up id is not modelled. The modal functions see only the `.modal` elements.
- Missing elements: in `tyh.js` a missing navbar would make the scroll handler throw, and a missing hero title means no typing. In `script.js` a missing `mobileMenuBtn` makes the load handler throw at registration, so no later handler is attached; a missing `navMenu`, `menuIcon` or `header` makes the handlers that touch it throw. All these elements are assumed present.
- Animations.TypeWriter: the title is a sequence of Unicode characters. `charAt` works on UTF-16 code units.
- FormValidation.FormField: only the messages under the field's own parent are modelled, as one list. Messages left by other fields with the same parent are not told apart.
- Animations.StatsObserver.OnEntries: the started-once invariant is proved for batches the browser can deliver: entries for observed elements only, and each element intersecting at most once per batch. On any other batch the method still does what the callback does, but the invariant is not claimed.
- Last-scroll variable: `lastScrollY` in `script.js` is written but never read. It is kept as state.
