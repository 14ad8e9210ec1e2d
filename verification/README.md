# Portfolio page behaviour, modelled in Dafny

This project models the rule-bearing core of the portfolio page's client
script (`script.js`): the contact form's three validation rules and the
invalid-flag/error-text state machine driven by blur, input and submit; the
mail subject and body composed on a successful submit; the choice of the
active section and the marking of navigation anchors on scroll; and the
header's `scrolled` flag and mobile-menu state under hamburger, link and
outside clicks. Browser reads (values, `offsetTop`, `scrollY`, whether a
click target lies inside the header) are parameters; DOM updates are the
returned records.

Modules, one per concern of the script:

- `Text` — the whitespace class shared by `String.prototype.trim` and the
  regular-expression escape `\s` (ECMAScript WhiteSpace and LineTerminator,
  enumerated), UTF-16 `length`, and `Trim` with a reference definition.
- `Validation` — the `rules` table: fields, error messages, the name,
  email and message tests, and the email shape test proved equal to the
  language of `^[^\s@]+@[^\s@]+\.[^\s@]+$`.
- `ContactForm` — field states, blur, input, the validation pass of
  submit, mail composition, and the event-sequence invariant.
- `ActiveLink` — section selection (`updateActiveNavLink`) against a
  reference "last reached section" choice, and anchor marking.
- `Navigation` — the scroll handler and the menu state machine.
- `Wrappers` — `Option`.

Three details of the code that are easy to misread:

- The header is `scrolled` only strictly past 40 pixels (`scrollY > 40`);
  at exactly 40 it is not (`Navigation.ScrolledBoundary`).
- With sections at tops 0, 800 and 1600, a scroll position of 700 already
  selects the second section, since 700 >= 800 - 120
  (`ActiveLink.SampleChoices`).
- A menu-link click closes the menu and resets the hamburger whether or
  not the menu was open (`Navigation.LinkClick`).

## Model

| member | source | states |
|---|---|---|
| Text.TrimCharacterization | script.js:138 | `trim` returns exactly the slice with only whitespace around it and no whitespace at its own ends; no other string has that property |
| Text.TrimIdempotent | script.js:203-205 | trimming an already trimmed value changes nothing |
| Text.TrimIgnoresPadding | script.js:138 | whitespace added on either side of a value does not change its trimmed value |
| Text.Utf16Length | script.js:138 | `length` counts UTF-16 code units: between one and two per character, and exactly one each when all characters lie in the Basic Multilingual Plane; the exact count is fixed by `Text.Utf16Unit` and `Text.Utf16Concat` |
| Text.Utf16Unit | script.js:138 | a single character has `length` 1 inside the Basic Multilingual Plane and 2 (a surrogate pair) outside it |
| Text.Utf16Concat | script.js:138 | `length` of a concatenation is the sum of the lengths, so together with `Text.Utf16Unit` it is the number of UTF-16 code units |
| Text.IsSpace | script.js:138-150 | definition: the ECMAScript WhiteSpace and LineTerminator characters, which both `trim` and `\s` use; characterised by `Text.TrimCharacterization` and `Validation.AcceptedEmailIsPlain` |
| Text.Trim | script.js:138-150 | `v.trim()`: no longer than the input and with no whitespace at either end; characterised exactly by `Text.TrimCharacterization` |
| Validation.NameValid | script.js:138 | definition: the trimmed value has `length` at least 2; characterised by `Validation.ValidIgnoresPadding` and `Validation.NameExamples` |
| Validation.EmailShape | script.js:144 | definition: the regular-expression test on a trimmed value; characterised by `Validation.EmailShapeMatchesPattern` |
| Validation.EmailValid | script.js:144 | definition: the trimmed value passes the shape test; characterised by `Validation.EmailRuleIsPattern` |
| Validation.MessageValid | script.js:150 | definition: the trimmed value has `length` at least 10; characterised by `Validation.ValidIgnoresPadding` and `Validation.MessageExamples` |
| Validation.Valid | script.js:134-153 | definition: the `validate` entry of each field's rule; characterised by `Validation.ValidOfTrimmed` and `Validation.BlankFailsEveryRule` |
| Validation.ErrorText | script.js:139-151 | definition: the `msg` entry of each field's rule, shown exactly while the field is marked (`ContactForm.Blur`, `ContactForm.EventsKeepWellFormed`) |
| Validation.EmailShapeMatchesPattern | script.js:144 | the email test on a trimmed value (non-empty `@`-free, space-free local part; one `@`; space-free, `@`-free domain with an inner `.`) accepts exactly the strings the regular expression matches |
| Validation.EmailRuleIsPattern | script.js:144 | the email rule accepts a value exactly when its trimmed form is in the language of `^[^\s@]+@[^\s@]+\.[^\s@]+$` |
| Validation.ValidOfTrimmed | script.js:203-205 | the trimmed values put into the mail pass each rule exactly when the raw values do |
| Validation.ValidIgnoresPadding | script.js:134-153 | each of the three rules gives the same verdict with or without surrounding whitespace |
| Validation.BlankFailsEveryRule | script.js:134-153 | a value of whitespace only fails all three rules |
| Validation.AcceptedEmailIsPlain | script.js:144 | an accepted email, once trimmed, has no whitespace and in particular no line break |
| Validation.NameExamples | script.js:138 | `"A"` and `" A\t"` fail the name rule; `"Al"` and `"  Al \n"` pass |
| Validation.NameCountsCodeUnits | script.js:138 | a single emoji outside the Basic Multilingual Plane has length 2 and passes the name rule |
| Validation.MessageExamples | script.js:150 | a 9-character message fails, a 10-character one passes |
| Validation.EmailAcceptedExamples | script.js:144 | `a@b.c` and `jane@x.com` pass |
| Validation.EmailRejectedExamples | script.js:144 | `abc`, `a@b.` and `a@.c` fail |
| Validation.EmailSecondAtRejected | script.js:144 | `a@@b.c` and `@b.c` fail |
| ContactForm.Blur | script.js:161-169 | blur keeps the value and leaves the field marked with its message exactly when the rule fails, cleared otherwise |
| ContactForm.BlurIdempotent | script.js:161-169 | a second blur on the same value changes nothing |
| ContactForm.Input | script.js:171-176 | input never marks a field; a marked field whose new value passes is cleared; in every other case only the value changes |
| ContactForm.InputLeavesSound | script.js:171-176 | after any input, a field still marked has a value that fails its rule |
| ContactForm.InputKeepsSynced | script.js:171-176 | input keeps the error text shown exactly while the field is marked |
| ContactForm.CheckAll | script.js:182-198 | the submit pass leaves every field as blur would, reports focus on the first failing field in the order name, email, message, and reports none exactly when all pass; by `ContactForm.BlurEachIsValidated` the resulting form is `ContactForm.Validated` |
| ContactForm.Submit | script.js:179-208 | the fields end as `ContactForm.Validated` leaves them; a mail is composed exactly when all three rules pass and never when focus went to a failing field; its subject is `Portfolio Contact from ` plus the trimmed name, its body the trimmed message, the signature line with an em dash, `From: ` with the trimmed name and `Email: ` with the trimmed email |
| ContactForm.ComposeMail | script.js:207-208 | the subject is the fixed prefix followed by the name; the body starts with the message and ends with the email |
| ContactForm.SenderRoundTrip | script.js:208 | the sender's name reads back unchanged from the composed subject |
| ContactForm.ReplyAddressRoundTrip | script.js:207 | an address without line breaks reads back unchanged from the last line of the composed body |
| ContactForm.SubmitAndReadBack | script.js:200-208 | after an accepted submit, the subject names the trimmed name and the body's last line gives the trimmed email |
| ContactForm.Validated | script.js:184-196 | definition: every field as blur leaves it; the submit pass `ContactForm.CheckAll` computes it |
| ContactForm.BlurEachIsValidated | script.js:184-196 | a form whose every field is as blur leaves it is the validated form, which ties the submit loop to the submit event of `ContactForm.Run` |
| ContactForm.Step | script.js:156-198 | definition: a blur runs the blur handler, an input the input handler, a submit the validation pass; characterised by `ContactForm.StepKeepsWellFormed` |
| ContactForm.Run | script.js:156-198 | definition: the events handled one after another; characterised by `ContactForm.RunKeepsWellFormed` |
| ContactForm.EventsKeepWellFormed | script.js:156-198 | from a freshly loaded form, after any sequence of blur, input and submit events, every marked field fails its rule and shows exactly its own message, and every unmarked field shows none |
| ContactForm.RunKeepsWellFormed | script.js:156-198 | the same invariant is preserved from any well-formed form |
| Navigation.Scrolled | script.js:24 | definition: `scrollY > 40`; characterised by `Navigation.ScrolledBoundary` |
| Navigation.ScrolledBoundary | script.js:24 | the header is `scrolled` strictly above 40 and not at 40; on whole pixels, exactly from 41 on |
| Navigation.ScrolledMonotone | script.js:24 | once scrolled, the header stays so at every larger position |
| Navigation.OnScroll | script.js:23-26 | a scroll event sets `scrolled` exactly when `scrollY > 40` and marks exactly the anchors whose href is `#` plus the last reached section's id |
| Navigation.AttrText | script.js:33 | definition: the text `"true"` or `"false"` that `setAttribute` stores for a boolean; characterised by `Navigation.Toggle` and `Navigation.ClicksKeepMirrored` |
| Navigation.Toggle | script.js:30-34 | the hamburger negates `open` and sets its `active` class and `aria-expanded` text to the new state |
| Navigation.LinkClick | script.js:37-43 | a menu-link click leaves the menu closed and the hamburger reset |
| Navigation.DocumentClick | script.js:46-52 | a click outside the header closes an open menu; every other click leaves the state unchanged |
| Navigation.OnClick | script.js:30-52 | definition: the target's handler runs first, then the document handler on the bubbled event; characterised by `Navigation.ClickEffects` |
| Navigation.ClickEffects | script.js:30-52 | after the document handler runs on the bubbled event, a hamburger click is a toggle, a link click closes, an inside click changes nothing, and only the hamburger opens the menu |
| Navigation.ToggleTwice | script.js:30-34 | two hamburger clicks restore a mirrored menu |
| Navigation.ClickAll | script.js:30-52 | definition: clicks handled one after another; characterised by `Navigation.ClicksKeepMirrored` and `Navigation.OpenAfterToggles` |
| Navigation.ClicksKeepMirrored | script.js:30-52 | any sequence of clicks keeps the hamburger's class and `aria-expanded` text equal to the menu's state |
| Navigation.OpenAfterToggles | script.js:30-34 | after n hamburger clicks the menu is open exactly when its initial state differs from the parity of n |
| ActiveLink.LastReached | script.js:62-71 | the reference choice: the last section with `scrollY >= top - 120`, with none after it, or none when no section qualifies |
| ActiveLink.Reached | script.js:67-68 | definition: `scrollY >= top - 120`; characterised by `ActiveLink.LastReached` and `ActiveLink.SampleChoices` |
| ActiveLink.Scan | script.js:66-71 | definition: the `forEach` that overwrites `current` with every reached section's id; characterised by `ActiveLink.CurrentIdIsLastReached` |
| ActiveLink.CurrentId | script.js:64-71 | definition: the scan started from `''`; characterised by `ActiveLink.CurrentIdIsLastReached` |
| ActiveLink.CurrentIdIsLastReached | script.js:64-71 | the forward scan that overwrites `current` ends with the id of the last reached section, or `''` when none is reached |
| ActiveLink.ChoiceMonotonic | script.js:66-71 | scrolling further never moves the choice to an earlier section, whatever the order of the tops |
| ActiveLink.SortedReachedPrefix | script.js:66-71 | with tops in ascending order, the reached sections are exactly those up to the chosen one |
| ActiveLink.MarkAnchors | script.js:73-75 | every anchor keeps its href and is active exactly when its href is `#` plus the current id |
| ActiveLink.AtMostOneActive | script.js:73-75 | with distinct hrefs at most one anchor is active |
| ActiveLink.MarkIdempotent | script.js:73-75 | marking again for the same id changes nothing |
| ActiveLink.NothingReachedMarksBareHash | script.js:64-75 | above every section the id is `''`, so only an anchor with href `#` can be active |
| ActiveLink.SampleChoices | script.js:62-71 | sections at 0, 800, 1600: nothing at -121, the first at 0 and 679, the second at 680, 700 and 850, the third at 1650 |

## Left out

- Missing-element guards (script.js:20, 29, 132, 159, 187): the model assumes the header, hamburger, link list, the three inputs and their error containers exist. The DOM lookups that feed those guards are browser wiring.
- Layout assumption: the hamburger and the menu links lie inside the header element, so the document click handler sees their clicks as inside clicks (`Navigation.OnClick`). The page markup is not part of this model.
- DOM querying, `classList` plumbing, the `.nav-cta` filter and listener registration (script.js:16-19, 60-61, 233-238): the model takes their results (sections, anchors, values, click location) as parameters.
- The reveal-on-scroll observer (script.js:81-103): it depends on viewport geometry, intersection ratios and root margins.
- The counter animation (script.js:108-124): floating-point `Math.pow`, `performance.now` timestamps and animation-frame scheduling.
- `encodeURIComponent` and navigation to the `mailto:` URL (script.js:208-211): a foreign encoder and a browser navigation; the model stops at the unencoded subject and body.
- The success banner, button hiding and the 5000 ms reset (script.js:213-226): timer-driven UI side effects. Because `form.reset()` changes values without input events, `ContactForm.Run` does not include it.
- Focus during submit: `input.focus()` (script.js:192) can fire a synchronous `blur` on the field that had focus in the middle of the pass; `ContactForm.Run` treats submit as one step. The outcome is the same, because that field ends as `ContactForm.Blur` leaves it either way (`ContactForm.BlurIdempotent`).
- Navigation.OnScroll: scroll positions and section tops are integers; the browser's fractional `scrollY` is not modelled.
- Strings are sequences of Unicode scalar values; UTF-16 code units appear only through `Text.Utf16Length`. The email pattern gives the same verdict either way, because a surrogate pair is two characters of the class `[^\s@]`.
