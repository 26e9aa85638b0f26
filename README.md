# Slider and scroll highlighting of the brochure-site script

This project models the stateful logic of `script.js`, the single script of a
brochure website. There are two parts:

- **The image slider** built by `initSlider`. It keeps a `current` index into
  a fixed, non-empty row of slides and one indicator dot per slide. `goTo`
  moves the single "active" mark of slides and dots. `nextSlide` and
  `prevSlide` step with wrap-around. An autoplay interval advances the slider.
  Hovering pauses it. Button and dot clicks navigate and then restart the
  interval. The controls sit inside the slider root, so they are clicked
  while the pointer is over it: the pause lasts only until the next click,
  whose restart lets the interval advance the slider during the hover. A guard disables the whole feature when the markup lacks the root,
  a control or any slide.
- **The scroll reactions with logic.** `highlightNavLink` activates the
  navigation link of the section under `scrollY + 100`. The header gets its
  `scrolled` class past an offset of 50.

Files:

- `optional.dfy`: `Option`, the model's stand-in for `null`.
- `slider_index.dfy` (module `SliderIndex`): JavaScript's truncating `%`, the
  index `goTo` stores, next and previous indices, how flags move, and the
  lemmas about iterating them.
- `slider.dfy` (module `Slider`): the host's interval table
  (`IntervalTable`), the `Slider` class with arrays of slide and dot flags,
  `initSlider`'s guard, and scenarios that use only the contracts.
- `page_scroll.dfy` (module `PageScroll`): the header class and the
  nav-link highlight loop over an array of link flags.

The slider's invariant (`Slider.Valid`) covers several facts. Slides and dots
are equal in number, at least one each. `current` is in `[0, N)`. Exactly the
interval held in `autoPlay` is live, so at most one interval exists.
`ShowsCurrent` says that exactly one slide and one dot are active, both at
`current`. Every navigation preserves it. The code never marks a slide active
at start-up, so `ShowsCurrent` holds initially only when the markup already
marks slide 0 alone. The constructor and `InitSlider` state it under that
condition.

On index wrap-around: one might expect `goTo(k)` to store the normalising
modulo `((k mod N) + N) mod N` for every integer `k`. The code computes
`(k + N) % N` with JavaScript's truncating remainder. That value is in
`[0, N)`, and equals the true modulo, only when `k >= -N` or `k` is a
multiple of `N` (then it is 0). For any other `k` below `-N`, it is negative. `WrapIndex` states both
halves, and `WrapIndexBelowRange` gives the instance `N = 3, k = -4`. Every
caller passes `current ± 1` or a dot index, so `GoTo` requires
`index >= -N`. The model follows the code.

## Model

| member | source | states |
|---|---|---|
| SliderIndex.JsRem | script.js:160 | JavaScript's `%` for a positive divisor: the result lies strictly between `-n` and `n`, has the sign of the dividend, and differs from the dividend by a multiple of `n` |
| SliderIndex.WrapIndex | script.js:160 | the index `goTo(index)` stores is in `[0, N)` and equals `index mod N` when `index >= -N`; it is 0 when `index` is a multiple of `N`; below `-N` it is negative otherwise |
| SliderIndex.WrapIndexBelowRange | script.js:160 | with three slides, `goTo(-4)` would store -1 where the true modulo gives 2, so the code does not normalise every integer |
| SliderIndex.NextIndex | script.js:165-167 | `nextSlide` stays in `[0, N)`: it goes to `c + 1`, or wraps from the last slide to 0 |
| SliderIndex.PrevIndex | script.js:169-171 | `prevSlide` stays in `[0, N)`: it goes to `c - 1`, or wraps from slide 0 to `N - 1` |
| SliderIndex.Advance | script.js:165-167 | any number of `nextSlide` calls from a valid index stays in `[0, N)` |
| SliderIndex.AdvanceIsModular | script.js:165-167 | `k` calls of `nextSlide` from `c` reach `(c + k) mod N` |
| SliderIndex.FullCycleReturns | script.js:165-167 | `N` calls of `nextSlide` return to the starting slide |
| SliderIndex.PrevNextInverse | script.js:165-171 | `prevSlide` undoes `nextSlide` and vice versa |
| SliderIndex.MoveActive | script.js:157-163 | `goTo` on one flag array: the new index is active, the old one is cleared unless it is the new one, every other flag is unchanged, and "exactly one active at the old index" becomes "exactly one active at the new index" |
| Slider.IntervalTable.SetInterval | script.js:175 | `setInterval` returns a positive handle that was not live, and that handle becomes live |
| Slider.IntervalTable.ClearInterval | script.js:174 | `clearInterval(h)` makes `h` no longer live and touches no other interval |
| Slider.CreateDots | script.js:144-153 | exactly one dot per slide is created, and only dot 0 is active |
| Slider.Slider.Valid | script.js:173-188 | under the slider's invariant at most one interval is live |
| Slider.Slider.constructor | script.js:140-155 | set-up creates N fresh dots with only dot 0 active, `current = 0` and `autoPlay = null`; if the markup marks slide 0 alone, exactly one slide and one dot are active, at `current` |
| Slider.Slider.GoTo | script.js:157-163 | `current` becomes `(index + N) % N` in `[0, N)`; on both arrays the old flag is cleared, the new one set and all others kept; "exactly one slide and one dot active at `current`" is preserved; the timer state is untouched |
| Slider.Slider.NextSlide | script.js:165-167 | `current` becomes the next index with wrap-around, flags moved as by `goTo` |
| Slider.Slider.PrevSlide | script.js:169-171 | `current` becomes the previous index with wrap-around, flags moved as by `goTo` |
| Slider.Slider.StartAuto | script.js:173-176 | whatever the prior state, exactly one interval is live afterwards, and it is a new one held in `autoPlay`; the slides are untouched |
| Slider.Slider.StopAuto | script.js:178-183 | afterwards `autoPlay` is null and no interval is live; on a stopped slider it changes nothing |
| Slider.Slider.ResetAuto | script.js:185-188 | ends in exactly the state `startAuto` alone would reach |
| Slider.Slider.Tick | script.js:175 | a firing of the interval advances to the next slide only while an interval is live; with none live, index and flags are unchanged |
| Slider.Slider.OnPrevClick | script.js:194-198 | the previous button moves `current` and both flag arrays as `prevSlide` does and restarts autoplay with a single new interval, as `resetAuto` does |
| Slider.Slider.OnNextClick | script.js:200-204 | the next button moves `current` and both flag arrays as `nextSlide` does and restarts autoplay with a single new interval, as `resetAuto` does |
| Slider.Slider.OnDotClick | script.js:148-151 | clicking dot `i` sets `current` to `i`, moves both flag arrays from the old index to `i` as `goTo` does, and restarts autoplay with a single new interval, as `resetAuto` does |
| Slider.InitSlider | script.js:126-212 | the slider is disabled exactly when the root, the previous or next control, or all slides are missing, and then no interval is started; otherwise it starts at slide 0 with fresh dots (only dot 0 active) and exactly one live interval |
| Slider.ThreeSlideScenario | script.js:157-171 | with three slides, two `nextSlide` calls from 0 reach 2, a third reaches 0, and `prevSlide` from 0 reaches 2 |
| Slider.OneSlideScenario | script.js:157-171 | with one slide, `nextSlide` and `prevSlide` both leave `current = 0` |
| Slider.HoverScenario | script.js:207-208 | between pointer-enter (`stopAuto`) and pointer-leave (`startAuto`), with no click in between, any number of interval firings leave index and flags unchanged; afterwards one interval is live |
| Slider.ClickDuringHoverScenario | script.js:194-208 | a click on the next button while the pointer is over the slider restarts autoplay, so after pointer-enter, that click and one firing, the slider has moved two slides and one interval is live |
| Slider.MissingControlScenario | script.js:135-138 | a slider without its previous control stays disabled and starts no interval |
| PageScroll.Header.OnScroll | script.js:22-29 | the header has `scrolled` exactly when the scroll offset exceeds 50 |
| PageScroll.LastCoveringLink | script.js:83-95 | finds a link exactly when some section with a link contains the probe position, and then it is the link of the last such section in document order |
| PageScroll.Highlighted | script.js:80-96 | when no section with a link contains the probe position, the link flags are unchanged |
| PageScroll.HighlightNavLink | script.js:80-96 | the loop leaves the link flags equal to `Highlighted` of the old flags at position `scrollY + 100` |
| PageScroll.HighlightSelectsLast | script.js:80-96 | if a section with a link contains the probe position, exactly one link is active afterwards: that of the last such section |

## Left out

- Timer semantics: the 4000 ms period, scheduling and event-loop ordering are not modelled. An interval firing is the explicit `Tick`, and the host's timer table is `IntervalTable`. Handle numbers come from a counter starting at 1. The host only promises positive, unused handles.
- Pointer-enter and pointer-leave are bound directly to `stopAuto` and `startAuto` (script.js:207-208). They are the methods `StopAuto` and `StartAuto` and have no wrappers of their own.
- DOM querying and mutation are not modelled: `querySelector`, `classList`, `createElement`, `appendChild`, `addEventListener`, `preventDefault` and `setAttribute('type', ...)`. Elements are array slots holding an "active" flag. A section's link is the index of the first `.nav-link` pointing at its id.
- The dots container: the model assumes it exists and holds no `.slider-dot` before set-up. The code dereferences it without a check (script.js:152).
- The header: the model assumes `.header` exists. The code uses it without a check (script.js:19, 26), so on a page without one every scroll event throws in that listener.
- Slider.Slider.GoTo: requires `index >= -N`. Every caller meets that, and the code's result for smaller indices is stated by `WrapIndex`.
- Slider.InitSlider: the diagnostic `console.log` is not modelled.
- Floating-point rounding: `scrollY` and `pageYOffset` are exact reals here, so `scrollY + 100` does not round.
- Smooth scrolling, the fade-in observer, the mobile menu toggle, the parallax effect and the unused `lastScroll` tracker are not modelled. Each is a thin wrapper over browser APIs; the parallax uses floating point.
- The contact form is handled by an external service.
- The `DOMContentLoaded` wiring is not modelled. It calls `highlightNavLink` once and then `initSlider`.
