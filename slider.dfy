/**
 * The image slider built by `initSlider`: a current index into a fixed,
 * non-empty row of slides, one indicator dot per slide, and an autoplay
 * interval that advances the slider while the pointer is not over it.
 *
 * A slide or dot is represented by its "active" flag; the host's interval
 * timers by an `IntervalTable` that hands out handles and remembers which
 * intervals are live.
 */
module Slider {

  import opened Optional
  import opened SliderIndex

  /**
   * The host's table of live intervals created for the slider. Handles are
   * positive, as the host promises for `setInterval`, and never reused.
   */
  class IntervalTable {
    var live: set<nat>
    var nextId: nat

    ghost predicate Valid()
      reads this
    {
      nextId >= 1 && forall h :: h in live ==> 1 <= h < nextId
    }

    constructor ()
      ensures Valid() && live == {} && nextId == 1
    {
      live, nextId := {}, 1;
    }

    /** `setInterval`: schedules a new repeating interval and returns its handle. */
    method SetInterval() returns (h: nat)
      requires Valid()
      modifies this
      ensures Valid()
      ensures h == old(nextId) && h >= 1 && h !in old(live)
      ensures live == old(live) + {h} && nextId == old(nextId) + 1
    {
      h := nextId;
      live := live + {h};
      nextId := nextId + 1;
    }

    /** `clearInterval`: cancels the interval `h`; a handle that is not live is ignored. */
    method ClearInterval(h: nat)
      requires Valid()
      modifies this
      ensures Valid()
      ensures live == old(live) - {h} && nextId == old(nextId)
    {
      live := live - {h};
    }
  }

  /** JavaScript truthiness of the `autoPlay` variable: `null` and `0` are false. */
  predicate Truthy(handle: Option<nat>)
  {
    handle.Some? && handle.value != 0
  }

  /** The intervals the slider believes live: none, or the one it holds. */
  function Held(handle: Option<nat>): (s: set<nat>)
    ensures |s| <= 1
    ensures handle.Some? <==> s != {}
  {
    match handle
    case None => {}
    case Some(h) => {h}
  }

  /**
   * The dots `initSlider` appends, one per slide, only the first marked active.
   * Returns their "active" flags in document order.
   */
  method CreateDots(n: nat) returns (dots: seq<bool>)
    ensures |dots| == n
    ensures forall i :: 0 <= i < n ==> (dots[i] <==> i == 0)
  {
    dots := [];
    var i := 0;
    while i < n
      invariant 0 <= i <= n
      invariant |dots| == i
      invariant forall j :: 0 <= j < i ==> (dots[j] <==> j == 0)
    {
      dots := dots + [i == 0];
      i := i + 1;
    }
  }

  class Slider {
    /** The "active" flags of the slides, owned by the page's markup. */
    const slideActive: array<bool>
    /** The "active" flags of the dots the slider created, one per slide. */
    const dotActive: array<bool>
    /** The host's interval table. */
    const timers: IntervalTable
    var current: int
    var autoPlay: Option<nat>

    /**
     * The slider's invariant: as many dots as slides, at least one of each,
     * `current` a valid index, and exactly the interval held in `autoPlay`
     * live (so never more than one).
     */
    ghost predicate Valid()
      reads this, timers
      ensures Valid() ==> |timers.live| <= 1
    {
      slideActive != dotActive &&
      1 <= slideActive.Length == dotActive.Length &&
      0 <= current < slideActive.Length &&
      timers.Valid() &&
      timers.live == Held(autoPlay)
    }

    /** Exactly one slide and exactly one dot are active, both at `current`. */
    ghost predicate ShowsCurrent()
      reads this, slideActive, dotActive
    {
      ExactlyOneAt(slideActive[..], current) && ExactlyOneAt(dotActive[..], current)
    }

    /**
     * The set-up part of `initSlider` once its guard has passed: create one
     * dot per slide with dot 0 active, start at slide 0 with no interval.
     * The code never marks a slide active, so the slide half of
     * `ShowsCurrent` holds only when the markup already marks slide 0 alone.
     */
    constructor (slides: array<bool>, timers: IntervalTable)
      requires slides.Length >= 1
      requires timers.Valid() && timers.live == {}
      ensures Valid()
      ensures slideActive == slides && this.timers == timers && fresh(dotActive)
      ensures dotActive[..] == OnlyAt(slides.Length, 0)
      ensures current == 0 && autoPlay == None
      ensures ExactlyOneAt(slides[..], 0) ==> ShowsCurrent()
    {
      var dots := CreateDots(slides.Length);
      slideActive := slides;
      dotActive := new bool[|dots|](i requires 0 <= i < |dots| => dots[i]);
      this.timers := timers;
      current := 0;
      autoPlay := None;
      new;
      assert dotActive[..] == OnlyAt(slides.Length, 0);
    }

    /**
     * `goTo(index)`: move the active mark of slides and dots from `current`
     * to `(index + N) % N`. Every caller passes an index no smaller than -N.
     */
    method GoTo(index: int)
      requires Valid() && index >= -slideActive.Length
      modifies this`current, slideActive, dotActive
      ensures Valid()
      ensures current == WrapIndex(index, slideActive.Length)
      ensures slideActive[..] == MoveActive(old(slideActive[..]), old(current), current)
      ensures dotActive[..] == MoveActive(old(dotActive[..]), old(current), current)
      ensures old(ShowsCurrent()) ==> ShowsCurrent()
    {
      slideActive[current] := false;
      dotActive[current] := false;
      current := WrapIndex(index, slideActive.Length);
      slideActive[current] := true;
      dotActive[current] := true;
    }

    /** `nextSlide`: `goTo(current + 1)`. */
    method NextSlide()
      requires Valid()
      modifies this`current, slideActive, dotActive
      ensures Valid()
      ensures current == NextIndex(old(current), slideActive.Length)
      ensures slideActive[..] == MoveActive(old(slideActive[..]), old(current), current)
      ensures dotActive[..] == MoveActive(old(dotActive[..]), old(current), current)
      ensures old(ShowsCurrent()) ==> ShowsCurrent()
    {
      GoTo(current + 1);
    }

    /** `prevSlide`: `goTo(current - 1)`. */
    method PrevSlide()
      requires Valid()
      modifies this`current, slideActive, dotActive
      ensures Valid()
      ensures current == PrevIndex(old(current), slideActive.Length)
      ensures slideActive[..] == MoveActive(old(slideActive[..]), old(current), current)
      ensures dotActive[..] == MoveActive(old(dotActive[..]), old(current), current)
      ensures old(ShowsCurrent()) ==> ShowsCurrent()
    {
      GoTo(current - 1);
    }

    /**
     * `startAuto`: clear the held interval if any, then start a fresh one.
     * Whatever the prior state, exactly one interval is live afterwards.
     * Bound to pointer-leave.
     */
    method StartAuto()
      requires Valid()
      modifies this`autoPlay, timers
      ensures Valid()
      ensures autoPlay == Some(old(timers.nextId)) && timers.live == {old(timers.nextId)}
      ensures old(timers.nextId) !in old(timers.live)
      ensures timers.nextId == old(timers.nextId) + 1
    {
      if Truthy(autoPlay) {
        timers.ClearInterval(autoPlay.value);
      }
      var h := timers.SetInterval();
      autoPlay := Some(h);
    }

    /**
     * `stopAuto`: clear the held interval, if any, and forget it. Afterwards
     * no interval is live; on a stopped slider it changes nothing.
     * Bound to pointer-enter.
     */
    method StopAuto()
      requires Valid()
      modifies this`autoPlay, timers
      ensures Valid()
      ensures autoPlay == None && timers.live == {}
      ensures timers.nextId == old(timers.nextId)
      ensures old(autoPlay) == None ==> timers.live == old(timers.live)
    {
      if Truthy(autoPlay) {
        timers.ClearInterval(autoPlay.value);
        autoPlay := None;
      }
    }

    /** `resetAuto`: `stopAuto` then `startAuto`; it ends in the state `startAuto` alone reaches. */
    method ResetAuto()
      requires Valid()
      modifies this`autoPlay, timers
      ensures Valid()
      ensures autoPlay == Some(old(timers.nextId)) && timers.live == {old(timers.nextId)}
      ensures old(timers.nextId) !in old(timers.live)
      ensures timers.nextId == old(timers.nextId) + 1
    {
      StopAuto();
      StartAuto();
    }

    /**
     * One firing of the slider's interval: the host runs `nextSlide` only
     * while an interval is live, so a stopped slider does not move.
     */
    method Tick()
      requires Valid()
      modifies this`current, slideActive, dotActive
      ensures Valid()
      ensures old(timers.live) != {} ==>
        current == NextIndex(old(current), slideActive.Length) &&
        slideActive[..] == MoveActive(old(slideActive[..]), old(current), current) &&
        dotActive[..] == MoveActive(old(dotActive[..]), old(current), current)
      ensures old(timers.live) == {} ==>
        current == old(current) && slideActive[..] == old(slideActive[..]) && dotActive[..] == old(dotActive[..])
      ensures old(ShowsCurrent()) ==> ShowsCurrent()
    {
      if timers.live != {} {
        NextSlide();
      }
    }

    /** The previous button's click handler: `prevSlide` then `resetAuto`. */
    method OnPrevClick()
      requires Valid()
      modifies this, slideActive, dotActive, timers
      ensures Valid()
      ensures current == PrevIndex(old(current), slideActive.Length)
      ensures slideActive[..] == MoveActive(old(slideActive[..]), old(current), current)
      ensures dotActive[..] == MoveActive(old(dotActive[..]), old(current), current)
      ensures autoPlay == Some(old(timers.nextId)) && timers.live == {old(timers.nextId)}
      ensures timers.nextId == old(timers.nextId) + 1
      ensures old(ShowsCurrent()) ==> ShowsCurrent()
    {
      PrevSlide();
      ResetAuto();
    }

    /** The next button's click handler: `nextSlide` then `resetAuto`. */
    method OnNextClick()
      requires Valid()
      modifies this, slideActive, dotActive, timers
      ensures Valid()
      ensures current == NextIndex(old(current), slideActive.Length)
      ensures slideActive[..] == MoveActive(old(slideActive[..]), old(current), current)
      ensures dotActive[..] == MoveActive(old(dotActive[..]), old(current), current)
      ensures autoPlay == Some(old(timers.nextId)) && timers.live == {old(timers.nextId)}
      ensures timers.nextId == old(timers.nextId) + 1
      ensures old(ShowsCurrent()) ==> ShowsCurrent()
    {
      NextSlide();
      ResetAuto();
    }

    /** The click handler of dot `i`: `goTo(i)` then `resetAuto`. */
    method OnDotClick(i: int)
      requires Valid() && 0 <= i < dotActive.Length
      modifies this, slideActive, dotActive, timers
      ensures Valid()
      ensures current == i
      ensures slideActive[..] == MoveActive(old(slideActive[..]), old(current), current)
      ensures dotActive[..] == MoveActive(old(dotActive[..]), old(current), current)
      ensures autoPlay == Some(old(timers.nextId)) && timers.live == {old(timers.nextId)}
      ensures timers.nextId == old(timers.nextId) + 1
      ensures old(ShowsCurrent()) ==> ShowsCurrent()
    {
      ModOfDecomposition(i, dotActive.Length, 0, i);
      GoTo(i);
      ResetAuto();
    }
  }

  /** The slider's elements as found in the markup, below an existing slider root. */
  datatype SliderMarkup = SliderMarkup(slides: array<bool>, hasPrev: bool, hasNext: bool)

  /** The guard of `initSlider`: which markups disable the slider. */
  predicate Disabled(markup: Option<SliderMarkup>)
  {
    markup.None? || !markup.value.hasPrev || !markup.value.hasNext || markup.value.slides.Length == 0
  }

  /**
   * `initSlider`: with no slider root, no previous or next control, or no
   * slide, return without creating dots or starting an interval; otherwise
   * build the slider at slide 0 and start autoplay.
   */
  method InitSlider(markup: Option<SliderMarkup>, timers: IntervalTable) returns (s: Option<Slider>)
    requires timers.Valid() && timers.live == {}
    modifies timers
    ensures s.None? <==> Disabled(markup)
    ensures s.None? ==> timers.live == {} && timers.nextId == old(timers.nextId)
    ensures s.Some? ==>
      s.value.Valid() && fresh(s.value) && fresh(s.value.dotActive) &&
      s.value.slideActive == markup.value.slides && s.value.timers == timers &&
      s.value.current == 0 && s.value.dotActive[..] == OnlyAt(s.value.dotActive.Length, 0) &&
      s.value.autoPlay == Some(old(timers.nextId)) && timers.live == {old(timers.nextId)} &&
      (ExactlyOneAt(markup.value.slides[..], 0) ==> s.value.ShowsCurrent())
  {
    if markup.None? {
      return None;
    }
    var m := markup.value;
    if !m.hasPrev || !m.hasNext || m.slides.Length == 0 {
      return None;
    }
    var slider := new Slider(m.slides, timers);
    slider.StartAuto();
    s := Some(slider);
  }

  /**
   * Three slides starting at slide 0: two `nextSlide` calls reach slide 2,
   * a third wraps to slide 0, and `prevSlide` from slide 0 reaches slide 2.
   */
  method ThreeSlideScenario() returns (afterTwo: int, afterThree: int, afterPrev: int)
    ensures afterTwo == 2 && afterThree == 0 && afterPrev == 2
  {
    var slides := new bool[3](i => i == 0);
    var timers := new IntervalTable();
    var slider := new Slider(slides, timers);
    slider.NextSlide();
    slider.NextSlide();
    afterTwo := slider.current;
    slider.NextSlide();
    afterThree := slider.current;
    slider.PrevSlide();
    afterPrev := slider.current;
  }

  /** A single slide: `nextSlide` and `prevSlide` both stay on slide 0. */
  method OneSlideScenario() returns (afterNext: int, afterPrev: int)
    ensures afterNext == 0 && afterPrev == 0
  {
    var slides := new bool[1](i => true);
    var timers := new IntervalTable();
    var slider := new Slider(slides, timers);
    slider.NextSlide();
    afterNext := slider.current;
    slider.PrevSlide();
    afterPrev := slider.current;
  }

  /**
   * Hovering pauses autoplay: after pointer-enter, any number of timer
   * firings leave the slider where it was until the next `startAuto`
   * (pointer-leave, or the `resetAuto` of a click).
   */
  method HoverScenario(slider: Slider, firings: nat)
    requires slider.Valid()
    modifies slider, slider.slideActive, slider.dotActive, slider.timers
    ensures slider.Valid()
    ensures slider.current == old(slider.current)
    ensures slider.slideActive[..] == old(slider.slideActive[..])
    ensures slider.dotActive[..] == old(slider.dotActive[..])
    ensures |slider.timers.live| == 1
  {
    slider.StopAuto();
    var k := 0;
    while k < firings
      invariant slider.Valid() && slider.timers.live == {}
      invariant slider.current == old(slider.current)
      invariant slider.slideActive[..] == old(slider.slideActive[..])
      invariant slider.dotActive[..] == old(slider.dotActive[..])
    {
      slider.Tick();
      k := k + 1;
    }
    slider.StartAuto();
  }

  /**
   * The controls lie inside the slider root, so they are clicked while the
   * pointer is over it. A click's `resetAuto` restarts autoplay during the
   * hover, and the next firing advances the slider before pointer-leave.
   */
  method ClickDuringHoverScenario(slider: Slider)
    requires slider.Valid()
    modifies slider, slider.slideActive, slider.dotActive, slider.timers
    ensures slider.Valid()
    ensures |slider.timers.live| == 1
    ensures slider.current == NextIndex(NextIndex(old(slider.current), slider.slideActive.Length), slider.slideActive.Length)
  {
    slider.StopAuto();
    slider.OnNextClick();
    slider.Tick();
  }

  /** A slider root whose previous control is missing leaves the feature off. */
  method MissingControlScenario() returns (enabled: bool, liveIntervals: nat)
    ensures !enabled && liveIntervals == 0
  {
    var slides := new bool[2](i => i == 0);
    var timers := new IntervalTable();
    var s := InitSlider(Some(SliderMarkup(slides, false, true)), timers);
    enabled := s.Some?;
    liveIntervals := |timers.live|;
  }
}
