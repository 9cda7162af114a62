# Portfolio page script: counters, scroll highlighting and the mobile menu

This project models the computational parts of the portfolio page script
`script.js` in Dafny and proves properties of them. Everything else in the
script is DOM wiring. There are three parts:

- **Statistic counter** (`animateCounters`). It reads a label such as
  "150+". It trims the text and notes whether it ends in "+". It takes the
  target with `parseInt(…, 10) || 0`. It then redraws the label on 120
  display frames. Frame `f` shows `Math.round(f / 120 * target)`, clamped by
  `value >= target ? target : value`, followed by the "+" if the label had
  one. The self-rescheduling `tick` callback becomes an explicit state
  machine (`Counter.Animation`, `Counter.Tick`). A loop drives it
  (`Counter.Drive`).
- **Scroll listeners** (`setupNavigation`). The navbar gets the class
  "scrolled" past 100 pixels. `current` becomes the `id` of the last section
  in document order whose `offsetTop - 120` is at most `scrollY`, or ""
  when no section qualifies. Each `.nav-link` then has "active" exactly when
  its `href` is `"#" + current`.
- **Mobile menu**. A hamburger click flips `aria-expanded` and toggles
  "active" on the button and on `.nav-menu`. A click on any navigation link
  closes both.

Modules:

- `Wrappers` (`wrappers.dfy`) holds `Option`. `None` stands for
  JavaScript's `null`, for `NaN` and for an element that is not there.
- `JsText` (`js_text.dfy`) holds the ECMAScript string operations the
  script uses: `trim`, `parseInt(s, 10)` and `String(n)` for integers.
- `Counter` (`counter.dfy`) holds the counter animation.
- `Navigation` (`navigation.dfy`) holds the two scroll listeners.
- `Menu` (`menu.dfy`) holds the hamburger and nav-link click handlers.

Modelling choices:

- The per-frame product is exact. `Math.round(frame / steps * target)` is
  `floor((2 * frame * target + steps) / (2 * steps))`: the integer nearest
  to the exact rational `frame * target / steps`, with halves rounded up, as
  `Math.round` does. The browser computes the product in doubles, so a
  single frame whose exact value lies on or next to a half can round the
  other way, even for small targets. For target 150, frame 22 has the exact
  value 27.5, the double product `22 / 120 * 150` is 27.499999999999996, and
  the browser shows 27 where the model shows 28. The properties
  `Counter.RunAnimation` states about the whole run still hold in doubles:
  `frame / 120`, multiplication by a non-negative target and `Math.round`
  are each monotone, so the numbers never decrease and stay within
  `[0, target]` after the clamp; `120 / 120 * target` is exactly `target`,
  so the last frame shows the target; and a negative target is clamped to
  itself on every frame.
- `steps` is `Math.ceil(2000 / (1000 / 60))`. It is computed exactly as
  ceil(2000 * 60 / 1000) = 120. The floating-point quotient also rounds up
  to 120.
- `scrollY` is a `real`, because the browser may report a fractional value.
  `offsetTop` is an integer.
- The browser's event loop, `requestAnimationFrame`, the DOM and the
  elements' identity are parameters or are left out. Handlers are
  functions from the state they read to the state they write.

What the code does with unusual labels:

- The finished counter shows `String(target)` followed by the "+" if the
  trimmed label ended in one. It does not put the original text back. So
  "N/A" ends as "0", "+" ends as "0+", and "1,500+" ends as "1+".
  `Counter.FinalTextRestoresLabel` proves the original comes back exactly
  when the trimmed label already has the form `String(n)` followed by an
  optional "+".
- `parseInt` also reads negative numbers. A negative target is shown from
  the first frame on, because the clamp `value >= target ? target : value`
  applies on every frame, not only on the last one.

## Model

| member | source | states |
|---|---|---|
| JsText.TrimStart | script.js:90 | the result is a suffix of the input; everything dropped is whitespace; the result does not start with whitespace |
| JsText.TrimEnd | script.js:90 | the result is a prefix of the input; everything dropped is whitespace; the result does not end with whitespace |
| JsText.Trim | script.js:90 | the trimmed label has no whitespace at either end, and it is empty only when the label was all whitespace |
| JsText.TrimOfPadded | script.js:90 | `trim` removes exactly the whitespace around a text whose ends are not whitespace |
| JsText.LeadingDigits | script.js:92 | `parseInt` reads the longest run of decimal digits: all of them digits, and the next character is not a digit |
| JsText.ParseIntOfPrefix | script.js:92 | `parseInt` of whitespace, optional sign, digits, then any text not starting with a digit is the signed value of those digits |
| JsText.ParseIntNoDigits | script.js:92 | `parseInt` is `NaN` when no digit follows the whitespace and the optional sign |
| JsText.NatToStringDigits | script.js:101 | `String(n)` for `n >= 0` is a non-empty digit string without leading zeros whose value is `n` |
| JsText.IntToStringShape | script.js:101 | `String(n)` ends in a digit, and its only non-digit is a leading "-" when `n < 0` |
| JsText.ParseIntOfIntToString | script.js:92-101 | `parseInt` reads back the number `String` wrote, whatever non-digit text follows it |
| Counter.CeilDiv | script.js:95 | the quotient is rounded up: the smallest `q` with `a <= b * q` |
| Counter.StepsFromDuration | script.js:94-95 | `steps = ceil(2000 / (1000 / 60))` is the constant 120 the model uses |
| Counter.RoundedValueIsNearest | script.js:100 | the per-frame value is within one half of `frame * target / steps`, halves rounded up, as `Math.round` promises |
| Counter.Shown | script.js:101 | the clamp never lets a frame show more than the target |
| Counter.RenderReadsBack | script.js:101 | a rendered frame text ends in "+" exactly when the label had one, and `parseInt` reads the shown number back from it |
| Counter.ShownMonotone | script.js:100-101 | for a non-negative target the shown number never decreases from frame to frame |
| Counter.ShownBounded | script.js:100-101 | for a non-negative target every frame shows a number between 0 and the target |
| Counter.ShownAtLastFrame | script.js:100-102 | the last frame (`frame == steps`) shows exactly the target |
| Counter.ShownNegative | script.js:100-101 | a negative target is shown on every frame, because the rounded value is never below it |
| Counter.FrameValues | script.js:98-103 | entry `i` of the frame sequence is the number frame `i + 1` shows, `Shown(i + 1)` |
| Counter.FrameTexts | script.js:98-103 | entry `i` of the text sequence is the text frame `i + 1` writes: `Shown(i + 1)` rendered with the label's plus sign |
| Counter.Drive | script.js:96-104 | the frame chain runs `tick` exactly `steps` times, for frames 1 .. steps, and then stops requesting frames |
| Counter.ShownSequence | script.js:98-103 | the numbers of frames 1 .. steps are monotone and bounded for a non-negative target, constant for a negative one, and end at the target |
| Counter.RunAnimation | script.js:88-105 | from the label text: 120 frames; frame `i + 1` shows `Shown(i + 1)` of the label's target and writes that number rendered with the label's plus sign; each text parses to its number and ends in "+" exactly when the trimmed label does; numbers monotone within [0, target] or constant; final text is `String(target)` plus the "+" |
| Counter.ReadRenderedLabel | script.js:90-92 | a label `String(n)` plus optional "+" is read as target `n` with that plus sign |
| Counter.FinalTextIdempotent | script.js:88-105 | a counter started on an already finished counter reads the same target and plus sign and ends with the same text |
| Counter.FinalTextRestoresLabel | script.js:88-105 | the finished counter equals the trimmed label exactly when that label has the form `String(n)` plus optional "+" |
| Counter.ExamplePlusLabel | script.js:90-101 | "150+" reads as target 150 with a plus sign and ends as "150+" |
| Counter.ExamplePlainLabel | script.js:90-101 | "42" reads as 42 without a plus sign and ends as "42" |
| Counter.ExampleNotANumber | script.js:92 | "N/A" falls back to target 0 and ends as "0" |
| Counter.ExampleLonePlus | script.js:91-92 | "+" falls back to target 0, keeps the plus sign and ends as "0+" |
| Counter.ExampleThousandsSeparator | script.js:92 | "1,500+" stops at the comma: target 1, final text "1+" |
| Counter.ExampleNegativeLabel | script.js:90-92 | " -5" plus a newline is trimmed to target -5 and ends as "-5" |
| Navigation.ToggleForced | script.js:24 | `classList.toggle(name, force)` leaves `name` present exactly when `force`, other classes unchanged |
| Navigation.NavbarOnScroll | script.js:23-25 | the navbar has "scrolled" exactly when `scrollY > 100`, other classes unchanged |
| Navigation.LastReached | script.js:39-44 | the found section qualifies and none after it does; with no result, no section qualifies |
| Navigation.ScanCurrent | script.js:38-44 | the forward scan that overwrites `current` ends with the `id` of the last qualifying section, or "" |
| Navigation.CurrentIdIsLastReached | script.js:38-44 | `current` is "" when no section qualifies, and otherwise the `id` of the last qualifying section in document order |
| Navigation.Highlight | script.js:47-50 | a link ends with "active" exactly when its `href` is `"#" + current`; its other classes and its `href` are unchanged |
| Navigation.HighlightAll | script.js:46-51 | the same holds for every link, in order |
| Navigation.HighlightOnScroll | script.js:37-52 | after the handler every link has "active" exactly when its `href` is `"#"` plus the last qualifying section's `id`, whatever it had before |
| Navigation.AtMostOneActive | script.js:46-51 | when the links' `href`s differ, at most one link ends up active |
| Navigation.HighlightIdempotent | script.js:46-51 | a second update with the same `current` changes nothing |
| Navigation.ExampleAboveAllSections | script.js:38-51 | above every section `current` stays "", so the link to "#" becomes active and the others lose "active" |
| Navigation.ExampleSectionWithoutId | script.js:42-48 | a qualifying section without an `id` makes `current` null, which matches the `href` "#null" |
| Menu.Toggle | script.js:30-31 | `classList.toggle(name)` flips the presence of `name` and keeps every other class |
| Menu.ClickHamburger | script.js:27-32 | a click sets `aria-expanded` to "true" or "false", the opposite of whether it was "true"; flips "active" on the button and on the menu, if there is one; keeps other classes; does nothing without a hamburger |
| Menu.ClickNavLink | script.js:54-59 | a nav-link click leaves the menu closed: `aria-expanded` is "false" and neither element is "active"; other classes unchanged |
| Menu.ClickKeepsSync | script.js:27-32 | if `aria-expanded`, the button's "active" and the menu's "active" agree before a click, they agree after it |
| Menu.ClickNavLinkCloses | script.js:54-59 | after a nav-link click the menu is closed and its three indicators agree |
| Menu.ClickNavLinkIdempotent | script.js:54-59 | a second nav-link click changes nothing |
| Menu.ClickTwiceRestores | script.js:27-32 | two hamburger clicks restore the state whenever `aria-expanded` is "true" or "false" |
| Menu.ExampleFirstClickOpens | script.js:27-32 | on a fresh page, with no `aria-expanded` and nothing "active", the first click opens the button and the menu |

## Left out

- The `IntersectionObserver` reveal dispatcher, with its threshold and root margin (script.js:65-84). It depends on browser viewport geometry. Adding "visible" is an idempotent set insert.
- Re-triggering the counter is left out. The observer never calls `unobserve` and `animateCounters` has no one-shot guard, so each time a statistic scrolls back into view the counter starts again from the text it shows at that moment (script.js:67-70, 88-92). After a finished run this changes nothing (`Counter.FinalTextIdempotent`). A re-entry during a run starts a second frame chain aimed at the intermediate number on display; the two chains then write the same element in turn, and the label can be left at an intermediate value such as "27+". The model runs one chain on one label and does not interleave chains.
- `requestAnimationFrame` and `setTimeout` scheduling are left out. This covers the skill-item stagger (`i * 100` ms), the hero fade-in and the form timers. They are host event-loop timing. The frame chain is modelled as a loop over ticks.
- Floating particles (script.js:138-169) are left out. They use `Math.random`, build CSS strings and insert into the DOM.
- Parallax and smooth-scroll offsets (script.js:172-184, 265-276) are left out. They are floating-point pixel arithmetic over DOM geometry.
- The form simulation, cursor effects, hover styling and ripple effect (script.js:187-262) are left out. They are UI side effects: the submit button's text and `disabled` flag, the form reset, a "focused" class on the inputs' parents, inline styles and a short-lived ripple element. None of them feeds the counter, the highlight or the menu.
- Counter.RoundedValueIsNearest: the model computes `frame / steps * target` with exact rationals. IEEE-754 rounding of that product is not modelled, so a single frame whose exact value is at or near a half can round the other way in the browser, even for small targets (target 150, frame 22: 27 in the browser, 28 in the model). The run-wide properties of `Counter.RunAnimation` do not depend on this, as explained above.
- JsText.ParseIntOfPrefix: `parseInt` returns a double, so a value above 2^53 in magnitude is rounded ("12345678901234567" reads as 12345678901234568). The model reads every digit string exactly; it is faithful for magnitudes up to 2^53.
- JsText.IntToStringShape: above 2^53 in magnitude `String(n)` prints the shortest digits that identify the double, padded with zeros (`String(2 ** 60)` is "1152921504606847000"), and from 10^21 on it uses exponent notation. The model always writes the exact digits; it is faithful for magnitudes up to 2^53.
- JsText.ParseIntOfIntToString: the round trip is proved for exact integers. In the browser it holds for targets of magnitude up to 2^53.
- Counter.ReadRenderedLabel: assumes the target's magnitude is at most 2^53, as for `JsText.ParseIntOfIntToString`.
- Counter.FinalTextRestoresLabel: assumes the target's magnitude is at most 2^53; above it the browser's `parseInt` and `String` round, as described for `JsText.ParseIntOfPrefix` and `JsText.IntToStringShape`.
- JsText.Trim: JavaScript strings are UTF-16 code units. The model uses Unicode scalar values, so lone surrogates are not represented.
- Failing lookups are not modelled. The `h3` in a statistic (script.js:89) and the `.navbar` (script.js:19) are assumed to exist where the code dereferences them without a check. The code would throw there.
- Element identity is not modelled. Sections, links and the menu are values captured when the handlers are set up.
