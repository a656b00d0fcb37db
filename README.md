# Portfolio navigation and contact form, modelled in Dafny

This project models the two pieces of behaviour in the portfolio site that are
more than markup and animation:

- **The navigation bar** (`src/components/Navbar.tsx`). On each recomputation
  it picks the *active section*. Sections are tried in menu order (home, about,
  projects, experience, contact). A section whose element is missing is skipped.
  The first section whose bounding rectangle straddles a reference line at 30%
  of the viewport height is chosen. When none does, the active section becomes
  `""`. There is one recomputation at mount. After that, scroll events are
  debounced: each event cancels the pending recomputation and schedules a new
  one 100 ms later, and teardown cancels it. Beside this, the bar keeps a menu
  open flag, a hovered label, and the underline/highlight rules for each label.
- **The contact form** (`src/components/Contact.tsx`). `validateForm` builds an
  error map field by field: blank name, blank message, blank e-mail, or an
  e-mail that fails `^[^\s@]+@[^\s@]+\.[^\s@]+$`. `handleSubmit` moves the
  loading flag, the submit status and the field values through fixed steps
  around one e-mail dispatch. Each input's change handler replaces one field.

Modules:

- `Sections` (sections.dfy): the menu, the id derivation, the first-match
  specification `FirstHit`, and `HandleScroll`, the loop with an early exit
  that the component runs.
- `Debounce` (debounce.dfy): the debounce timer as a state machine over an
  explicit millisecond clock, with `pending` holding the deadline of the
  scheduled recomputation, plus lemmas about runs of scroll events.
- `Navbar` (navbar.dfy): the component as the class `NavbarState`.
- `Validation` (validation.dfy): white space, `trim`, the e-mail pattern (as
  the regular expression's meaning and as a decision procedure, proved equal),
  and the error map.
- `Contact` (contact.dfy): the component as the class `ContactForm`.
- `Wrappers` (wrappers.dfy): `Option`.

Modelling choices:

- The page is a map from element id to rectangle; an id absent from the map is
  an element that `getElementById` does not find.
- Rectangle edges and the viewport height are exact reals. The reference line
  is exactly `innerHeight * 3/10`.
- White space is the ECMAScript set (white space plus line terminators). It is
  one predicate, used both by `trim` and by the pattern's `\s`.
- Moving the clock to `t` runs a recomputation whose deadline is at or before
  `t`. A scroll event at time `t` is handled after that, so a gap of exactly
  100 ms between two events lets the first recomputation run.
- A recomputation reads the geometry of the moment it fires; `Tick` takes that
  geometry as a parameter.
- The outcome of the e-mail dispatch is a parameter (`succeeded`). The payload
  handed to the dispatcher is the form's three fields.

## Model

| member | source | states |
|---|---|---|
| `Sections.HandleScroll` | src/components/Navbar.tsx:13-34 | the loop over the sections (skip missing elements, stop at the first straddling one) returns exactly `FirstHit` over the five section ids, and `""` when no section qualifies |
| `Sections.FirstHitPicksEarliest` | src/components/Navbar.tsx:20-31 | if the section at index k is hit and none before it is, the result is that section: an earlier hit always wins over a later one |
| `Sections.FirstHitIsHit` | src/components/Navbar.tsx:21-30 | a non-empty result is a listed id whose element exists and straddles the line, with no hit at any earlier index |
| `Sections.FirstHitEmptyIffNoHit` | src/components/Navbar.tsx:20-33 | the result is `""` exactly when no section straddles the line; the previous active section is never kept |
| `Sections.FirstHitInRange` | src/components/Navbar.tsx:21-29 | the result is `""` or one of the listed ids, and only an id whose element is present |
| `Sections.SectionIdsValues` | src/components/Navbar.tsx:4-16 | the section ids are the lower-cased menu labels `home, about, projects, experience, contact`, non-empty and pairwise distinct |
| `Sections.ActiveSectionInRange` | src/components/Navbar.tsx:14-28 | the computed active section is always `""` or one of the five lower-cased menu labels |
| `Sections.HighlightUnique` | src/components/Navbar.tsx:117-121 | at most one menu label is highlighted for any active section |
| `Sections.UnderlineWithoutHover` | src/components/Navbar.tsx:124 | with nothing hovered, a label is underlined exactly when its id is the active section |
| `Sections.NoUnderlineWhenIdle` | src/components/Navbar.tsx:124 | with no active section and nothing hovered, no label is underlined |
| `Debounce.Run` | src/components/Navbar.tsx:40-44 | after a run of scroll events the clock stands at the last event's time |
| `Debounce.RunSnoc` | src/components/Navbar.tsx:40-44 | a run extended by one event is the shorter run followed by one clock step and one rescheduling |
| `Debounce.RunCount` | src/components/Navbar.tsx:41-44 | a run of scroll events recomputes once per gap of at least 100 ms (plus once if a recomputation was already due), and leaves exactly one recomputation pending, due 100 ms after the last event |
| `Debounce.Burst` | src/components/Navbar.tsx:41-44 | a burst of events less than 100 ms apart recomputes nothing while it lasts, then exactly once at 100 ms after the last event and not earlier |
| `Debounce.CancelSilences` | src/components/Navbar.tsx:47-50 | after teardown nothing is pending and no later moment recomputes |
| `Navbar.NavbarState.constructor` | src/components/Navbar.tsx:7-10 | the menu starts closed, nothing hovered, active section `home`, no listener, nothing pending |
| `Navbar.NavbarState.Mount` | src/components/Navbar.tsx:36-46 | the recomputation at mount sets the active section to the first hit for the current geometry, whatever it was before, and registers the listener |
| `Navbar.NavbarState.OnScroll` | src/components/Navbar.tsx:41-44 | while listening, a scroll event replaces the pending recomputation by one due 100 ms from now; without a listener nothing changes |
| `Navbar.NavbarState.Tick` | src/components/Navbar.tsx:12-43 | advancing the clock runs the pending recomputation if it is due (the active section becomes the first hit of the geometry then) and clears it; otherwise the active section is unchanged |
| `Navbar.NavbarState.Unmount` | src/components/Navbar.tsx:47-50 | teardown removes the listener and cancels the pending recomputation |
| `Navbar.NavbarState.ToggleMenu` | src/components/Navbar.tsx:140 | the menu button flips the open flag |
| `Navbar.NavbarState.HandleClick` | src/components/Navbar.tsx:53-60 | a click scrolls and closes the menu exactly when the target element exists; otherwise the open flag is unchanged |
| `Navbar.NavbarState.HoverStart` | src/components/Navbar.tsx:111 | entering a label makes it the hovered label |
| `Navbar.NavbarState.HoverEnd` | src/components/Navbar.tsx:112 | leaving a label clears the hovered label |
| `Navbar.MountBurstSettle` | src/components/Navbar.tsx:36-50 | mount, a burst of scroll events under 100 ms apart and a quiet 100 ms recompute exactly once after mount, ending with the first hit of the final geometry and nothing pending |
| `Validation.FormData.With` | src/components/Contact.tsx:102-130 | replacing one field sets that field and keeps the other two |
| `Validation.TrimStartShape` | src/components/Contact.tsx:33-39 | trimming the front keeps a suffix, removes only white space and leaves no white space in front |
| `Validation.TrimEndShape` | src/components/Contact.tsx:33-39 | trimming the back keeps a prefix, removes only white space and leaves no white space at the back |
| `Validation.TrimShape` | src/components/Contact.tsx:33-39 | `trim` keeps a slice of the input whose ends are not white space and removes only white space around it |
| `Validation.BlankIffAllSpace` | src/components/Contact.tsx:33-39 | a field fails its "required" check exactly when it is empty or all white space |
| `Validation.IndexOf` | src/components/Contact.tsx:36 | the index returned holds the first `@` of the string |
| `Validation.EmailFormatSound` | src/components/Contact.tsx:36 | every string accepted by the decision procedure (no white space, one `@`, non-empty local part, a `.` inside the domain) matches the pattern |
| `Validation.EmailFormatComplete` | src/components/Contact.tsx:36 | every string the pattern matches is accepted by the decision procedure |
| `Validation.EmailFormatMatchesPattern` | src/components/Contact.tsx:36 | the decision procedure and the pattern accept the same strings |
| `Validation.PaddedEmailRejected` | src/components/Contact.tsx:34-37 | the format test runs untrimmed: a non-blank e-mail with white space at either end gets "Invalid email format" |
| `Validation.ErrorsOfMeaning` | src/components/Contact.tsx:31-43 | each field has an entry exactly when it fails its check, with that check's message; "Email is required" takes precedence over "Invalid email format"; the map is empty exactly when the form is valid |
| `Validation.EmptyErrorMap` | src/components/Contact.tsx:42 | an error map has no keys exactly when none of the three fields has an entry |
| `Validation.BuildErrors` | src/components/Contact.tsx:32-40 | building the map field by field yields the error map of the form |
| `Contact.ContactForm.constructor` | src/components/Contact.tsx:26-29 | the form starts empty, without errors, not loading, idle |
| `Contact.ContactForm.SetField` | src/components/Contact.tsx:101-130 | an edit sets one field and keeps the other two |
| `Contact.ContactForm.ValidateForm` | src/components/Contact.tsx:31-43 | validation replaces the whole error map by the error map of the current fields (stale errors vanish) and returns true exactly when the form is valid |
| `Contact.ContactForm.BeginSubmit` | src/components/Contact.tsx:45-63 | an invalid form publishes its errors and leaves loading and status alone; a valid one sets loading, resets the status to idle and hands the fields to the dispatcher |
| `Contact.ContactForm.SettleSend` | src/components/Contact.tsx:65-72 | on success the status is success and all fields become empty; on failure the status is error and the fields are kept; loading ends either way |
| `Contact.ContactForm.HandleSubmit` | src/components/Contact.tsx:45-73 | an invalid submit sends nothing and changes neither loading, status nor fields; a valid one sends the fields and ends not loading, with the status and fields given by the outcome |

## Left out

- The cursor follower, its spring, the parallax remap and the particles (`src/components/Background.tsx`): floating-point animation inside the animation library, plus `Math.random`.
- The scroll-linked interpolations in `src/components/Hero.tsx`, `src/components/Portfolio.tsx` and `src/components/Experience.tsx`, and the navigation progress bar (`scaleX: scrollYProgress`): the library computes these values and its code is not part of this model.
- Static content, markup, styling and every entry/hover/tap animation, including the whole of `src/components/About.tsx`.
- `getBoundingClientRect`, `getElementById` and `window.innerHeight` are inputs. `scrollIntoView` is an opaque effect, reported by `HandleClick`'s `scrolled` result.
- Floating-point rounding of `innerHeight * 0.3`: the model compares against exactly three tenths of the height.
- `toLowerCase` is modelled for ASCII letters only. The menu labels are ASCII.
- The e-mail dispatch itself (service, template, public key, recipient address) and the `console.error` on failure. Only its success or failure is modelled.
- Browser timer semantics: timer ids, event-loop ordering and clock drift. Time is an explicit integer clock.
- The submit button's `disabled={isLoading}` gating is part of the markup and is not modelled. `HandleSubmit` does not require the form to be idle.
