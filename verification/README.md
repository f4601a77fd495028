# Client-side validation and decision logic of a marketing site's script

The site's enhancement script (`script.js`) is mostly DOM wiring. This
project models the part of it that makes decisions, as pure Dafny functions
over immutable records, and proves what those decisions guarantee:

- `validateEmail`: the regular expression `^[^\s@]+@[^\s@]+\.[^\s@]+$`,
  read literally as "there are split points for the `@` and the `.`"
  (`Email.ValidEmail`), and proved equal to the structural reading. The
  structural reading is: no whitespace, exactly one `@`, a non-empty local
  part, and a domain with a dot that is neither its first nor its last
  character.
- `validateForm`: the submit-time walk over the form's required `input`
  and `textarea` controls. It returns a flag and adds or removes the
  `is-invalid` class on each control.
- The real-time `blur` and `input` handlers and how their rules differ
  from `validateForm`.
- `debounce(func, wait)`: a trailing-edge, single-shot timer over discrete
  time. Calls and clock observations are events, and runs of `func` are
  recorded in a trace.
- The navbar scroll handler's scrolled / not-scrolled decision with its
  dark / light palette, the lazy-image swap, and the anchor-scroll target.

Modules, one file each: `Wrappers` (Option), `Text` (JavaScript whitespace
and `trim`), `Email`, `Form`, `LiveValidation`, `Debounce`, `Navbar`,
`LazyImages`, `Anchors`.

Modelling choices:

- Whitespace is one predicate, `Text.IsSpace`. It holds the ECMAScript
  WhiteSpace and LineTerminator code points. The regular expression's `\s`
  and `String.prototype.trim` use the same set.
- A form control is a `Form.Field` with its element (`input`, `textarea`,
  `select`), `type`, `value`, `required` attribute and `is-invalid` flag.
  `validateForm` selects only `input[required], textarea[required]`, while
  the live handlers are attached to `select` elements too. A required
  `select` is therefore never checked on submit.
- The regular expression rejects whitespace anywhere in the address, not
  only around its parts.
- The browser's clock, timers and `window.scrollY` become parameters: debounce
  events carry their time, and `Navbar.LookAt` takes the offset that the
  debounced handler reads when it runs. The offset is a double in the
  browser. The comparison with 50 is exact, so the offset is a `real`.
- `document.querySelector(href)` becomes a map from selector to the found
  element's `offsetTop`.
- `img.dataset.src` is checked for truthiness, so an empty `data-src`
  attribute counts as absent for the swap. The image is still observed,
  because it matches `img[data-src]`.

## Model

| member | source | states |
|---|---|---|
| `Text.Trim` | script.js:122 | `trim` returns an infix of the value whose dropped prefix and suffix are all whitespace and which has no whitespace at either end; it is empty exactly when the value is all whitespace |
| `Text.BlankIffAllSpace` | script.js:122 | `!value.trim()` holds exactly when every character of the value is whitespace |
| `Email.ValidEmail` | script.js:112-115 | the anchored pattern matches for some choice of `@` and `.` split points; a match has at least five characters and contains both `@` and `.` |
| `Email.MatchIsStructural` | script.js:112-114 | any match of the pattern has no whitespace, a single `@` at the split point, a non-empty local part and an inner dot in the domain |
| `Email.StructuralMatches` | script.js:112-114 | a structurally valid address yields split points at which the anchored pattern matches |
| `Email.ValidEmailIffStructural` | script.js:112-115 | `validateEmail(s)` is true iff `s` has no whitespace, exactly one `@`, a non-empty local part and a domain with a dot that is neither first nor last |
| `Email.SampleAddressAccepted` | script.js:112-115 | `user@example.com` is accepted |
| `Email.MissingPartsRejected` | script.js:112-115 | a string with no `@`, or with no inner dot after its first `@`, is rejected |
| `Form.MarkOnSubmit` | script.js:122-130 | the loop body marks a control exactly when its trimmed value is empty or it is an email control whose untrimmed value fails `validateEmail`, and changes nothing else |
| `Form.Settle` | script.js:118-131 | a selected control is marked exactly when it fails the check; an unselected control (optional, or a `select`) is untouched |
| `Form.Walk` | script.js:119-131 | the `forEach` replaces each control by what its body leaves of it, keeps the form's length, and yields true iff no selected control is left marked |
| `Form.ValidateForm` | script.js:117-134 | every control is settled in place, the form keeps its length, and the flag returned is true iff no required input/textarea is left marked `is-invalid` |
| `Form.ValidateFormAccepts` | script.js:118-133 | `validateForm` returns true iff every required input/textarea has a non-blank trimmed value and, if its type is `email`, an untrimmed value passing `validateEmail` |
| `Form.MarkingsExact` | script.js:118-131 | after validation each selected control is marked exactly when it failed; other controls and all other data are unchanged |
| `Form.SettleIdempotent` | script.js:122-130 | the check reads only value, type, element and `required`, so settling a control twice equals settling it once |
| `Form.ValidateFormIdempotent` | script.js:121-131 | validating the validated form again gives the same flag and the same markings |
| `Form.PaddedEmailRejected` | script.js:125 | the email rule reads the untrimmed value: a required email control holding `user@example.com` preceded by a no-break space (U+00A0) fails, though `user@example.com` is valid |
| `LiveValidation.OnBlur` | script.js:165-173 | on blur a control ends up marked iff it is required with an empty trimmed value, or an email control with a non-empty value failing `validateEmail`; nothing else changes |
| `LiveValidation.OnInput` | script.js:175-181 | the input handler never sets the mark; it clears it iff it was set, the trimmed value is non-empty, and the control is not an email control or its value is a valid address |
| `LiveValidation.BlurAgreesWithSubmit` | script.js:165-173 | on a required input or textarea, the blur handler gives the same marking as `validateForm` |
| `LiveValidation.BlurJudgesOptionalEmail` | script.js:168-171 | an empty optional email control is valid on blur; an optional email control with a bad address is marked on blur but left alone on submit |
| `LiveValidation.InputClearsOnlyWhatBlurClears` | script.js:175-181 | the input handler clears a mark only when blur, and submit for selected controls, would clear it too |
| `LiveValidation.InputKeepsBlurVerdict` | script.js:165-181 | an input event on an unchanged value never overturns the preceding blur's verdict |
| `LiveValidation.EmptyOptionalEmailDiffers` | script.js:165-181 | a marked, empty, optional email control stays marked on input but is cleared on blur |
| `Debounce.Fresh` | script.js:207-208 | a new debounced function has nothing scheduled |
| `Debounce.Invoke` | script.js:209-216 | each call cancels any pending timer and schedules exactly one, due `wait` after the call, with this call's arguments |
| `Debounce.Advance` | script.js:210-213 | a timer runs once the clock reaches its deadline, passes its stored arguments and leaves nothing pending; otherwise nothing happens |
| `Debounce.AtMostOneRunPerCall` | script.js:207-217 | over any event sequence, runs of `func` plus the pending timer never outnumber the calls (plus a timer pending at the start) |
| `Debounce.QuietRunsAtMostOnce` | script.js:207-217 | with no calls in between, `func` runs at most once |
| `Debounce.PendingIsLastCall` | script.js:214-215 | the pending timer is always the one scheduled by the last call, due `wait` after it |
| `Debounce.RunUsesLastCall` | script.js:210-213 | `func` runs only at a clock time at least `wait` after the last call, with that call's arguments |
| `Debounce.BurstKeepsRescheduling` | script.js:214-215 | with a wait of 10, calls at 0, 5 and 9 keep replacing the timer: until just before 19 nothing has run and the timer of the call at 9 is pending, due at 19 |
| `Debounce.BurstFiresOnceWithLastArgs` | script.js:207-217 | calls at 0, 5 and 9 with a wait of 10 run `func` exactly once, at 19, with the last call's arguments |
| `Navbar.LookAt` | script.js:225-243 | the navbar is `scrolled` iff the offset exceeds 50, and links and icon bars share one palette that is dark exactly in the scrolled state |
| `Navbar.ThresholdIsStrict` | script.js:225 | offset 50 gives the light, unscrolled look; 50.5 and 51 give the dark, scrolled look |
| `LazyImages.Observe` | script.js:201-203 | every image with a `data-src` attribute is observed and nothing else about it changes |
| `LazyImages.OnReport` | script.js:189-197 | a report changes an image iff it is watched, intersecting and has a truthy `data-src`; the change swaps the source, drops `lazy` and stops watching |
| `LazyImages.LoadedIsFinal` | script.js:193-195 | a swapped image is unchanged by every later report |
| `LazyImages.SwapIsOneShot` | script.js:188-199 | a watched image with a truthy `data-src` is swapped exactly once when some report intersects, and is untouched otherwise |
| `LazyImages.EmptyDeferredSourceNeverLoads` | script.js:192 | an image with an empty `data-src` is never swapped |
| `Anchors.ScrollTarget` | script.js:5-9 | a scroll is requested iff `href` is non-empty, not `#`, and finds an element; the position is 80 above the element's top |
| `Anchors.TargetClearsHeader` | script.js:9 | the requested position is 80 above the element's `offsetTop`; differences between requested positions equal differences between offsets |

## Left out

- DOM querying and event registration (script.js:1-4, 10-109, 137-160, 257-326). This includes the anchors, the mobile navbar collapse, the video events, the fade-in observer, the hamburger icon, the button hover effects and the `DOMContentLoaded`/`load` hooks. It is wiring with no decision beyond the rules modelled here.
- The fade-in and section-reveal observers (script.js:60-81, 305-326). They only add a class or set styles on intersection. Their threshold and root margin are browser geometry.
- The parallax handler (script.js:247-255), because `scrollY * 0.2` is floating-point styling.
- The submit handler's success affordance and the 3000 ms reset (script.js:140-158). These are DOM writes and a real-clock timer. Its decision is `validateForm`, which is modelled.
- Video `play()` rejection, `console.log`, preloading of the two external images, image error logging, and the reduced-motion style injection (script.js:31-58, 260-303). These are I/O or foreign browser calls.
- The debounce delays the two scroll handlers are built with (10 and 16 ms). They are the `wait` parameter of `Debounce.Fresh`, not separate code.
- The smooth animation of `window.scrollTo` and its clamping of the requested position to the range from 0 to the page's maximum scroll offset. `Anchors.ScrollTarget` gives the requested position, not where the page ends up.
- The geometry of `offsetTop`: it is measured from the element's `offsetParent`, not from the document, so it equals the document position only when that parent is the body. The map in `Anchors.ScrollTarget` holds `offsetTop` as read.
- The `'IntersectionObserver' in window` feature test (script.js:187). `LazyImages.Observe` assumes the API exists; without it the script does nothing to the images.
- Debounce.Invoke: `setTimeout` converts `wait` to a 32-bit signed integer, so a wait of 2^31 ms or more wraps around (and a negative one becomes 0). The model keeps `wait` an unbounded `nat`; the script's waits are 10 and 16 ms.
- Form.PaddedEmailRejected: the browser's sanitising of an `email` input's value (it strips ASCII whitespace such as U+0020 and newlines) is not modelled, so `Form.Field.value` is any string. The lemma uses a no-break space, which that sanitising keeps.
- CSS selector parsing. A syntactically invalid `href` makes `querySelector` throw in the browser. The model treats it like a selector that finds nothing, because no scroll happens in either case.
- Colours and transforms as CSS strings. Colours are the `Navbar.Palette` enumeration.
