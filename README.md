# Portfolio page script, modelled in Dafny

The page script of a static portfolio site wires five behaviours to the page
once it has loaded. This project models the parts of them that make
decisions, and proves what those decisions promise.

- **Contact form** (`contact_form.dfy`, module `ContactForm`). On submit, the
  handler checks the hidden honeypot field `website` first, then the trimmed
  `name`, `email` and `message`, then the trimmed e-mail against the pattern
  `^[^\s@]+@[^\s@]+\.[^\s@]+$`. The first check that fails decides the status
  line: spam, missing fields, or invalid e-mail. Otherwise the line shows
  "sending", and a timer later shows success and resets the form. `Decide` is
  the decision. `IsEmailShape` states the e-mail check directly. It is proved
  equal to `MatchesEmailPattern`, which reads the regular expression as a
  split of the string. The class `Form` holds the fields, the status line and
  the sends still waiting for their timer.
- **String built-ins** (`js_text.dfy`, module `JsText`). `IsSpace` is the set of
  code points that both `String.prototype.trim` and `\s` treat as white space
  (ECMAScript WhiteSpace and LineTerminator). `Trim` uses it, and the e-mail
  check uses it too. Module `Optional` (`optional.dfy`) gives the `Option`
  type, used for absent attributes and fields.
- **Navigation** (`navigation.dfy`, module `Navigation`). The mobile toggle
  flips the `aria-expanded` attribute and the panel's `is-open` class. A link
  click closes an open panel and scrolls to the section's document position
  less the header height and 8.
- **Scroll-spy** (`scroll_spy.dfy`, module `ScrollSpy`). `BuildNavMap` builds the
  map from section id to link out of the links' `data-target` attributes. The
  intersection callback makes the link of an intersecting, mapped section the
  only active one. Links are named by their position among the `.nav-link`
  elements.
- **Visual rules** (`reveal.dfy`, module `Reveal`). Project card `idx` is
  revealed after `idx * 120` ms. The header has a shadow exactly when the page
  is scrolled more than 20 units.

The callers of these behaviours are the browser's event, observer and timer
machinery. In the model they are plain method calls whose arguments are the
values the script would read from the page: attribute values, element tops,
header height, scroll offsets, form field values.

## Model

| member | source | states |
|---|---|---|
| `JsText.IsSpace` | script.js:166-177 | a character is white space exactly when it is one of the ECMAScript WhiteSpace or LineTerminator code points, the set both `trim` and `\s` use |
| `JsText.Trim` | script.js:166-168 | the trimmed value has no white space at either end, and it is empty exactly when the input is all white space |
| `JsText.TrimIsSlice` | script.js:166-168 | the trimmed value is the slice of the input between its leading and trailing white space, and only white space lies outside it |
| `JsText.TrimOfPadded` | script.js:166-168 | white space, then a non-empty core with no white space at its ends, then white space, trims to exactly that core |
| `JsText.TrimIgnoresPadding` | script.js:166-168 | adding white space before or after a value does not change its trimmed form |
| `JsText.TrimIdempotent` | script.js:166-168 | trimming twice gives the same result as trimming once |
| `ContactForm.IsEmailShape` | script.js:177-178 | the e-mail check `Decide` runs: no white space, exactly one `@` with a non-empty part before it, and after it a part of at least three characters with a `.` that is neither its first nor its last character; `EmailShapeIsPattern` proves it equal to the regular expression |
| `ContactForm.EmailShapeIsPattern` | script.js:176-178 | the explicit check (no white space, exactly one `@` with a non-empty part before it, and a `.` after the `@` that is neither the first nor the last character of that part) accepts exactly the strings the regular expression matches |
| `ContactForm.Decide` | script.js:155-187 | the outcome is Spam exactly when the honeypot is present and non-empty. It is MissingFields exactly when the honeypot is not filled and some required field is absent or all white space. InvalidEmail only when the trimmed e-mail fails the check. No other outcome is possible |
| `ContactForm.SendingExactlyWhenValid` | script.js:160-187 | a submission reaches Sending if and only if the honeypot is not filled, all three required fields are filled, and the trimmed e-mail matches the regular expression |
| `ContactForm.InvalidEmailExactlyWhenNoMatch` | script.js:176-182 | with the honeypot not filled and all fields filled in, the outcome is InvalidEmail if and only if the trimmed e-mail does not match the regular expression |
| `ContactForm.HoneypotOverridesAll` | script.js:159-164 | two submissions with the same non-empty honeypot are both Spam, whatever their other fields hold |
| `ContactForm.EmailPaddingIgnored` | script.js:167 | white space around the e-mail never changes the outcome |
| `ContactForm.NoAtOrNoDotIsInvalid` | script.js:176-182 | an otherwise valid submission whose trimmed e-mail has no `@`, or no `.` after its first `@`, is InvalidEmail |
| `ContactForm.Reset` | script.js:191 | the reset keeps each field that exists and empties every one, so none is filled |
| `ContactForm.ResetFormIsIncomplete` | script.js:191 | submitting a form that was just reset gives MissingFields |
| `ContactForm.Form.Submit` | script.js:153-187 | the status line shows `Decide` of the current fields; the fields are unchanged; a timed send is queued only when the outcome is Sending |
| `ContactForm.Form.CompleteSend` | script.js:188-192 | a queued send's timer shows Sent, resets the form, and consumes that send |
| `ContactForm.SubmitValidThenSend` | script.js:184-192 | a submission that reaches Sending shows Sending, then Sent, and leaves the form cleared, so that resubmitting it asks for the fields |
| `ContactForm.SubmitRejected` | script.js:160-182 | a rejected submission shows the rejection `Decide` gives, that is, the first failing check's message, which is one of the three rejections; no send is queued |
| `Navigation.Toggled` | script.js:17-21 | a click negates the expanded reading of `aria-expanded` and flips `is-open`; afterwards the attribute is "true" or "false" |
| `Navigation.ToggleKeepsSync` | script.js:17-21 | if the attribute and the class agree before a click, they agree after it, and the same holds for disagreeing |
| `Navigation.ToggleTwiceRestores` | script.js:17-21 | when the attribute is "true" or "false", two clicks restore the original state |
| `Navigation.ToggleTwiceNormalises` | script.js:17-21 | for an absent or other attribute value, two clicks leave the class as it was and the attribute "false" |
| `Navigation.NavBar.ClickToggle` | script.js:17-21 | a click on the toggle updates the attribute and the class as `Toggled` says |
| `Navigation.ClosedForScroll` | script.js:36-39 | following a link closes an open panel and writes "false" to the attribute; a closed panel is left as it is |
| `Navigation.TargetId` | script.js:32 | an href without `#` is its own id; an href with one loses exactly one character, and that character is a `#` |
| `Navigation.TargetIdDropsFirstHash` | script.js:32 | for every href split as `pre + "#" + post` with no `#` in `pre`, the id is `pre + post`: the first `#` is dropped and everything else is kept in order |
| `Navigation.FragmentTarget` | script.js:32 | the href `#id` names `id` |
| `Navigation.ScrollTarget` | script.js:41-43 | the section's document position less the scroll target is the header height plus 8 |
| `Navigation.NavBar.ClickLink` | script.js:30-46 | for a non-empty target id that names an element, the panel is closed and the scroll target is returned; for an empty id (href `#`) or a missing element, nothing changes and nothing is scrolled |
| `ScrollSpy.BuildNavMap` | script.js:54-58 | the map's keys are exactly the non-empty `data-target` values. Each key maps to a link carrying that target, and no later link carries it |
| `ScrollSpy.SpyStep` | script.js:61-69 | for an intersecting entry whose id is mapped, that link is active and every other link is not. Any other entry changes no flag |
| `ScrollSpy.SpyBatch` | script.js:61-70 | `entries.forEach` of `SpyStep`, in delivery order; the number of flags is unchanged. The three lemmas below state what a batch does |
| `ScrollSpy.LastApplyingEntryWins` | script.js:60-70 | after a batch, the link of the last intersecting, mapped entry is the only active one |
| `ScrollSpy.NoApplyingEntryNoChange` | script.js:60-70 | a batch with no intersecting, mapped entry changes no flag |
| `ScrollSpy.ExactlyOneActiveAfterApplying` | script.js:60-70 | after a batch in which some entry applies, exactly one link is active |
| `ScrollSpy.SpyStepAsWritten` | script.js:61-69 | over a plain object, an intersecting section whose unmapped id is inherited from `Object.prototype` clears every link's flag and then throws. Every other entry, including such a section when it is not intersecting, behaves as in `SpyStep` |
| `ScrollSpy.InheritedIdClearsHighlight` | script.js:62-68 | a section with the id "constructor" coming into view removes the only highlight, as written; `SpyStep` keeps it |
| `ScrollSpy.Spy.constructor` | script.js:54-58 | the spy's map is the one `BuildNavMap` describes, and the flags start as loaded |
| `ScrollSpy.Spy.OnIntersections` | script.js:60-70 | the flags after a batch are `SpyBatch` of the flags before it, with the clearing loop and the single activation done in place |
| `Reveal.StaggerDelay` | script.js:137 | card `idx` waits a whole number of 120 ms steps, exactly `idx` of them |
| `Reveal.StaggerStrictlyIncreasing` | script.js:134-137 | the delay grows by 120 per card position, so a later card's delay is strictly larger |
| `Reveal.ScheduleCardReveals` | script.js:134-138 | one delay per card; the first is 0; consecutive delays differ by 120; the cards are revealed in strictly increasing index order |
| `Reveal.HeaderShadow` | script.js:200-203 | the shadow style is applied exactly when the scroll offset exceeds 20, and `none` otherwise |
| `Reveal.ShadowMonotone` | script.js:200-203 | scrolling further never removes the shadow; 20 is the last offset without it |

## Findings

| source | as written | input that shows it | evidently intended | confidence | as-written member | corrected member |
|---|---|---|---|---|---|---|
| script.js:54-68 | `navMap` is a plain object `{}`, so `navMap[id]` also finds names inherited from `Object.prototype`. The `!navLink` test lets them through. The callback then removes `active` from every link, and `navLink.classList.add` throws | a section with `id="constructor"` scrolls into view while no link has that `data-target` | a section with no link of its own is ignored, as the `!navLink` early return intends | not executed; follows from JavaScript property lookup | `ScrollSpy.InheritedIdClearsHighlight` (with `ScrollSpy.SpyStepAsWritten`) | `ScrollSpy.SpyStep` (own keys only), with `ScrollSpy.LastApplyingEntryWins` |

The class `ScrollSpy.Spy` uses the corrected
lookup, which a `Map` or `Object.hasOwn` would give. `SpyStepAsWritten` models one entry. When it throws, `entries.forEach` stops, so the rest of that batch is skipped as well. This is not modelled.

## Left out

- The footer year (script.js:11) reads the clock. It is not modelled.
- The progress-bar reveal (script.js:84-121) is not modelled. It parses `data-value` with `parseInt(...) || 0` and counts the label up with floating-point increments rounded by `Math.round`.
- The IntersectionObserver options (root margin, thresholds) and the one-shot `unobserve` of the skills and projects observers are not modelled. They are browser callback machinery. The spy's entries come in as an already-delivered batch.
- `setTimeout`, `setInterval` and smooth `window.scrollTo` are not modelled. The card schedule is the list of delays the loop passes to `setTimeout`. The link handler returns the position it asks `scrollTo` for, without the browser's clamping to the scrollable range.
- `ContactForm.Form.CompleteSend`: overlapping sends are a count of pending timers. Which submission a timer belongs to is not tracked. This matches the script, since each timer only sets the status line and resets the form.
- `ContactForm.Reset`: `form.reset()` restores each field's default value. The model assumes the markup gives none, so every field becomes empty.
- `ContactForm.Decide`: `FormData.get` can return a file; form values are modelled as strings only.
- Strings are sequences of Unicode scalar values, not UTF-16 code units. This does not change any check: every white-space character, `@` and `.` is a single code unit.
- `Navigation.ScrollTarget`, `Reveal.HeaderShadow`: element tops, `pageYOffset` and `scrollY` are integers in the model. Browsers report fractional values.
- `Navigation.NavBar.ClickLink`: `getElementById` is modelled as a map from element id to the element's viewport top. An empty id never finds an element, whatever the map holds. Handler throws are not modelled. They come from a missing `.nav-toggle`, `.main-nav` or `#header` element, a `.nav-link` without an `href` (`null.replace`, script.js:32), or a missing `.form-status` element (every submit then throws at `status.textContent`, script.js:157-161).
- `ScrollSpy.BuildNavMap`: a `data-target` of `__proto__` is stored as an ordinary key. In the script that assignment replaces the object's prototype instead.
- The status texts and colours are constants (`StatusText`, `StatusColor`). The style APIs that show them are not modelled.
