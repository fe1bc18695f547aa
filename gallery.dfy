/**
 * The two page objects of assets/js/gallery.js: the hero slideshow and the
 * photo lightbox. Each is a class whose fields are the object's state; the
 * "active" classes of the slides and indicator dots are arrays of flags.
 * DOM look-ups become constructor parameters (whether an element was
 * found, the initial flags, the image sources of the grid) and the event
 * handlers become methods.
 */
module Gallery {

  import opened Maybe
  import Decimal

  // ---------------------------------------------------------------------------
  // Index arithmetic
  // ---------------------------------------------------------------------------

  /** JavaScript's `a % n` on integers: the remainder takes the sign of `a`. */
  function JsRem(a: int, n: int): (r: int)
    requires n > 0
    ensures (a - r) % n == 0
    ensures a >= 0 ==> 0 <= r < n
    ensures a < 0 ==> -n < r <= 0
  {
    if a >= 0 then
      ModUnique(a - a % n, n, a / n, 0);
      a % n
    else
      ModUnique(a + (-a) % n, n, -((-a) / n), 0);
      -((-a) % n)
  }

  /** The remainder is determined by any quotient that leaves one in range. */
  lemma ModUnique(a: int, n: int, q: int, r: int)
    requires n > 0 && 0 <= r < n && a == q * n + r
    ensures a % n == r
  {
    var q0 := a / n;
    var r0 := a % n;
    assert a == q0 * n + r0;
    var d := q - q0;
    assert d * n == r0 - r;
  }

  /** `(index + n) % n`, the wrap-around both `goTo`s use. */
  function WrapIndex(index: int, n: int): int
    requires n > 0
  {
    JsRem(index + n, n)
  }

  /**
   * For every index from `-n` on, the wrap-around lands in range; it
   * leaves an index in range alone.
   */
  lemma WrapIndexRange(index: int, n: int)
    requires n > 0 && index >= -n
    ensures 0 <= WrapIndex(index, n) < n
    ensures 0 <= index < n ==> WrapIndex(index, n) == index
  {
    if 0 <= index < n {
      ModUnique(index + n, n, 1, index);
    }
  }

  /** One step forward: the next index, and 0 after the last. */
  lemma WrapNext(i: int, n: int)
    requires n > 0 && 0 <= i < n
    ensures WrapIndex(i + 1, n) == if i == n - 1 then 0 else i + 1
  {
    if i == n - 1 {
      assert i + 1 + n == 2 * n;
    } else {
      WrapIndexRange(i + 1, n);
    }
  }

  /** One step back: the previous index, and the last before 0. */
  lemma WrapPrev(i: int, n: int)
    requires n > 0 && 0 <= i < n
    ensures WrapIndex(i - 1, n) == if i == 0 then n - 1 else i - 1
  {
    if i == 0 {
      assert i - 1 + n == n - 1;
    } else {
      WrapIndexRange(i - 1, n);
    }
  }

  /**
   * Below `-n` the wrap-around is no index at all: `(-n - 1 + n) % n` is
   * -1 in JavaScript. Callers never pass such an index.
   */
  lemma WrapBelowRange(n: int)
    requires n > 1
    ensures WrapIndex(-n - 1, n) == -1
  {
    assert -(-n - 1 + n) == 1;
  }

  // ---------------------------------------------------------------------------
  // The "active" flags
  // ---------------------------------------------------------------------------

  /** Exactly the element at `i` carries the flag. */
  predicate OnlyActive(flags: seq<bool>, i: int)
  {
    0 <= i < |flags| && forall k :: 0 <= k < |flags| ==> (flags[k] <==> k == i)
  }

  /** How many elements carry the flag. */
  function CountActive(flags: seq<bool>): nat
  {
    if flags == [] then 0 else CountActive(flags[..|flags| - 1]) + (if flags[|flags| - 1] then 1 else 0)
  }

  /** "Exactly one element is active" means a count of one. */
  lemma {:induction false} OnlyActiveCount(flags: seq<bool>, i: int)
    requires OnlyActive(flags, i)
    ensures CountActive(flags) == 1
  {
    var init := flags[..|flags| - 1];
    if i == |flags| - 1 {
      NoneActive(init);
    } else {
      assert OnlyActive(init, i);
      OnlyActiveCount(init, i);
    }
  }

  lemma {:induction false} NoneActive(flags: seq<bool>)
    requires forall k :: 0 <= k < |flags| ==> !flags[k]
    ensures CountActive(flags) == 0
  {
    if flags != [] {
      NoneActive(flags[..|flags| - 1]);
    }
  }

  /** A count of one means exactly one element is active. */
  lemma {:induction false} CountOneOnlyActive(flags: seq<bool>)
    requires CountActive(flags) == 1
    ensures exists i :: OnlyActive(flags, i)
  {
    var init := flags[..|flags| - 1];
    var last := |flags| - 1;
    if flags[last] {
      ZeroCountNoneActive(init);
      assert OnlyActive(flags, last);
    } else {
      CountOneOnlyActive(init);
      var i :| OnlyActive(init, i);
      assert OnlyActive(flags, i);
    }
  }

  lemma {:induction false} ZeroCountNoneActive(flags: seq<bool>)
    requires CountActive(flags) == 0
    ensures forall k :: 0 <= k < |flags| ==> !flags[k]
  {
    if flags != [] {
      ZeroCountNoneActive(flags[..|flags| - 1]);
    }
  }

  /** What `goTo` does to the slides: take the flag off `from`, then put it on `to`. */
  function Moved(flags: seq<bool>, from: int, to: int): (r: seq<bool>)
    requires 0 <= from < |flags| && 0 <= to < |flags|
    ensures |r| == |flags| && r[to]
    ensures from != to ==> !r[from]
    ensures forall k :: 0 <= k < |flags| && k != from && k != to ==> r[k] == flags[k]
  {
    flags[from := false][to := true]
  }

  /** Moving the flag keeps exactly one element active, now the one at `to`. */
  lemma MovedOnlyActive(flags: seq<bool>, from: int, to: int)
    requires OnlyActive(flags, from) && 0 <= to < |flags|
    ensures OnlyActive(Moved(flags, from, to), to)
  {
  }

  /** What `goTo` does to the indicator dots: the same, skipping a dot that does not exist. */
  function Remarked(flags: seq<bool>, from: int, to: int): (r: seq<bool>)
    requires from >= 0 && to >= 0
    ensures |r| == |flags|
    ensures to < |flags| ==> r[to]
    ensures from < |flags| && from != to ==> !r[from]
    ensures forall k :: 0 <= k < |flags| && k != from && k != to ==> r[k] == flags[k]
  {
    var cleared := if from < |flags| then flags[from := false] else flags;
    if to < |flags| then cleared[to := true] else cleared
  }

  // ---------------------------------------------------------------------------
  // Hero slideshow
  // ---------------------------------------------------------------------------

  class Slideshow {
    /** The "active" class of each `.hero__slide`. */
    const slides: array<bool>
    /** The "active" class of each `.hero__indicator`; there may be fewer or more than slides. */
    const indicators: array<bool>
    /** `init` got past both of its guards: the handlers are bound and autoplay runs. */
    const bound: bool
    var currentIndex: int
    var isPaused: bool

    ghost predicate Valid()
      reads this
    {
      && slides != indicators
      && currentIndex >= 0
      && (bound ==> slides.Length > 1 && currentIndex < slides.Length)
    }

    /**
     * The object literal and `init`: without a `.hero__slides` container
     * the slide lists stay empty; with one slide or none nothing is bound.
     */
    constructor (hasContainer: bool, slideFlags: seq<bool>, indicatorFlags: seq<bool>)
      ensures Valid()
      ensures slides[..] == (if hasContainer then slideFlags else [])
      ensures indicators[..] == (if hasContainer then indicatorFlags else [])
      ensures bound <==> hasContainer && |slideFlags| > 1
      ensures currentIndex == 0 && !isPaused
      ensures fresh(slides) && fresh(indicators)
    {
      if hasContainer {
        slides := new bool[|slideFlags|](i requires 0 <= i < |slideFlags| => slideFlags[i]);
        indicators := new bool[|indicatorFlags|](i requires 0 <= i < |indicatorFlags| => indicatorFlags[i]);
      } else {
        slides := new bool[0];
        indicators := new bool[0];
      }
      bound := hasContainer && |slideFlags| > 1;
      currentIndex := 0;
      isPaused := false;
    }

    /**
     * `goTo(index)`: nothing when `index` is the current index; otherwise
     * the flag moves from the current slide and dot to the wrapped index.
     */
    method GoTo(index: int)
      requires Valid() && bound && index >= -slides.Length
      modifies this`currentIndex, slides, indicators
      ensures Valid()
      ensures index == old(currentIndex) ==>
                currentIndex == old(currentIndex) && slides[..] == old(slides[..]) && indicators[..] == old(indicators[..])
      ensures index != old(currentIndex) ==>
                && currentIndex == WrapIndex(index, slides.Length)
                && slides[..] == Moved(old(slides[..]), old(currentIndex), currentIndex)
                && indicators[..] == Remarked(old(indicators[..]), old(currentIndex), currentIndex)
    {
      if index == currentIndex {
        return;
      }
      WrapIndexRange(index, slides.Length);
      slides[currentIndex] := false;
      if currentIndex < indicators.Length {
        indicators[currentIndex] := false;
      }
      currentIndex := WrapIndex(index, slides.Length);
      slides[currentIndex] := true;
      if currentIndex < indicators.Length {
        indicators[currentIndex] := true;
      }
    }

    /** `next()`: one slide on, from the last back to the first. */
    method Next()
      requires Valid() && bound
      modifies this`currentIndex, slides, indicators
      ensures Valid()
      ensures currentIndex == if old(currentIndex) == slides.Length - 1 then 0 else old(currentIndex) + 1
      ensures slides[..] == Moved(old(slides[..]), old(currentIndex), currentIndex)
      ensures indicators[..] == Remarked(old(indicators[..]), old(currentIndex), currentIndex)
    {
      WrapNext(currentIndex, slides.Length);
      GoTo(currentIndex + 1);
    }

    /** `prev()`: one slide back, from the first to the last. */
    method Prev()
      requires Valid() && bound
      modifies this`currentIndex, slides, indicators
      ensures Valid()
      ensures currentIndex == if old(currentIndex) == 0 then slides.Length - 1 else old(currentIndex) - 1
      ensures slides[..] == Moved(old(slides[..]), old(currentIndex), currentIndex)
      ensures indicators[..] == Remarked(old(indicators[..]), old(currentIndex), currentIndex)
    {
      WrapPrev(currentIndex, slides.Length);
      GoTo(currentIndex - 1);
    }

    /** A click on indicator dot `index`. */
    method ClickIndicator(index: nat)
      requires Valid() && bound && index < indicators.Length
      modifies this`currentIndex, slides, indicators
      ensures Valid()
      ensures index != old(currentIndex) ==>
                && currentIndex == WrapIndex(index, slides.Length)
                && slides[..] == Moved(old(slides[..]), old(currentIndex), currentIndex)
                && indicators[..] == Remarked(old(indicators[..]), old(currentIndex), currentIndex)
      ensures index == old(currentIndex) ==>
                currentIndex == old(currentIndex) && slides[..] == old(slides[..]) && indicators[..] == old(indicators[..])
    {
      GoTo(index);
    }

    /** One autoplay interval: `next()` unless paused. */
    method Tick()
      requires Valid() && bound
      modifies this`currentIndex, slides, indicators
      ensures Valid()
      ensures old(isPaused) ==>
                currentIndex == old(currentIndex) && slides[..] == old(slides[..]) && indicators[..] == old(indicators[..])
      ensures !old(isPaused) ==>
                && currentIndex == (if old(currentIndex) == slides.Length - 1 then 0 else old(currentIndex) + 1)
                && slides[..] == Moved(old(slides[..]), old(currentIndex), currentIndex)
                && indicators[..] == Remarked(old(indicators[..]), old(currentIndex), currentIndex)
    {
      if !isPaused {
        Next();
      }
    }

    /** `pause()`, on mouse enter. */
    method Pause()
      modifies this`isPaused
      ensures isPaused
    {
      isPaused := true;
    }

    /** `resume()`, on mouse leave. */
    method Resume()
      modifies this`isPaused
      ensures !isPaused
    {
      isPaused := false;
    }

    /** The slideshow's keydown handler: ignored while the lightbox is open; the arrows step. */
    method OnKey(key: string, lightboxActive: bool)
      requires Valid() && bound
      modifies this`currentIndex, slides, indicators
      ensures Valid()
      ensures lightboxActive || (key != "ArrowLeft" && key != "ArrowRight") ==>
                currentIndex == old(currentIndex) && slides[..] == old(slides[..]) && indicators[..] == old(indicators[..])
      ensures !lightboxActive && key == "ArrowLeft" ==>
                && currentIndex == (if old(currentIndex) == 0 then slides.Length - 1 else old(currentIndex) - 1)
                && slides[..] == Moved(old(slides[..]), old(currentIndex), currentIndex)
                && indicators[..] == Remarked(old(indicators[..]), old(currentIndex), currentIndex)
      ensures !lightboxActive && key == "ArrowRight" ==>
                && currentIndex == (if old(currentIndex) == slides.Length - 1 then 0 else old(currentIndex) + 1)
                && slides[..] == Moved(old(slides[..]), old(currentIndex), currentIndex)
                && indicators[..] == Remarked(old(indicators[..]), old(currentIndex), currentIndex)
    {
      if lightboxActive {
        return;
      }
      if key == "ArrowLeft" {
        Prev();
      }
      if key == "ArrowRight" {
        Next();
      }
    }
  }

  /**
   * If exactly one slide is active before a step, exactly one is active
   * after it: the one at the new index.
   */
  lemma StepKeepsOneActive(before: seq<bool>, from: int, to: int)
    requires OnlyActive(before, from) && 0 <= to < |before|
    ensures CountActive(Moved(before, from, to)) == 1
    ensures OnlyActive(Moved(before, from, to), to)
  {
    MovedOnlyActive(before, from, to);
    OnlyActiveCount(Moved(before, from, to), to);
  }

  // ---------------------------------------------------------------------------
  // Photo lightbox
  // ---------------------------------------------------------------------------

  /**
   * The sources the lightbox collects: one per grid item that holds an
   * `img`, dropping empty sources (`filter(Boolean)`), in grid order.
   */
  function Sources(grid: seq<Option<string>>): (r: seq<string>)
    ensures |r| <= |grid|
    ensures forall i :: 0 <= i < |r| ==> r[i] != ""
    ensures forall s :: s in r <==> s != "" && Some(s) in grid
  {
    if grid == [] then []
    else
      var rest := Sources(grid[1..]);
      assert forall o :: o in grid <==> o == grid[0] || o in grid[1..] by {
        assert grid == [grid[0]] + grid[1..];
      }
      match grid[0]
      case Some(src) => if src != "" then [src] + rest else rest
      case None => rest
  }

  /** A grid of one cell yields that cell's source when it has a non-empty one. */
  lemma SourcesOne(cell: Option<string>)
    ensures Sources([cell]) == match cell case Some(src) => (if src != "" then [src] else []) case None => []
  {
    assert [cell][1..] == [];
  }

  /**
   * The sources keep the grid's order: those of a concatenation are the
   * first part's followed by the second part's.
   */
  lemma {:induction false} SourcesAppend(a: seq<Option<string>>, b: seq<Option<string>>)
    ensures Sources(a + b) == Sources(a) + Sources(b)
    decreases |a|
  {
    if a == [] {
      assert a + b == b;
    } else {
      assert (a + b)[0] == a[0];
      assert (a + b)[1..] == a[1..] + b;
      SourcesAppend(a[1..], b);
    }
  }

  /** The text of `.lightbox__counter`: the 1-based position, " / ", the number of images. */
  function CounterText(index: nat, count: nat): string
  {
    Decimal.Decimal(index + 1) + " / " + Decimal.Decimal(count)
  }

  /** Different positions or counts read differently on the counter. */
  lemma CounterTextInjective(i: nat, n: nat, j: nat, m: nat)
    requires CounterText(i, n) == CounterText(j, m)
    ensures i == j && n == m
  {
    var a := Decimal.Decimal(i + 1);
    var b := Decimal.Decimal(j + 1);
    FirstSpace(a, Decimal.Decimal(n));
    FirstSpace(b, Decimal.Decimal(m));
    assert a == b;
    Decimal.DecimalInjective(i + 1, j + 1);
    var t := CounterText(i, n);
    assert Decimal.Decimal(n) == t[|a| + 3..];
    assert Decimal.Decimal(m) == t[|b| + 3..];
    Decimal.DecimalInjective(n, m);
  }

  /** The digits before " / " are the part up to the first space. */
  lemma FirstSpace(d: string, e: string)
    requires Decimal.AllDigits(d)
    ensures var t := d + " / " + e;
            |t| > |d| && t[|d|] == ' ' && t[..|d|] == d && forall k :: 0 <= k < |d| ==> t[k] != ' '
  {
  }

  /**
   * `preload(index)`: the source a preloading `Image` is made for, if
   * any. With no images `% 0` is NaN and nothing is preloaded.
   */
  function PreloadSource(index: int, images: seq<string>): (r: Option<string>)
    requires images == [] || index >= -|images|
    ensures r.Some? ==> r.value in images && r.value != ""
  {
    if images == [] then None
    else
      var k := WrapIndex(index, |images|);
      WrapIndexRange(index, |images|);
      if images[k] != "" then Some(images[k]) else None
  }

  /** The preloads one `preload(index)` makes. */
  function Preloads(index: int, images: seq<string>): seq<string>
    requires images == [] || index >= -|images|
  {
    match PreloadSource(index, images)
    case Some(src) => [src]
    case None => []
  }

  /** Around a position in range, the neighbours preloaded are the previous and next images, wrapping. */
  lemma PreloadNeighbours(i: int, images: seq<string>)
    requires 0 <= i < |images| && forall k :: 0 <= k < |images| ==> images[k] != ""
    ensures PreloadSource(i - 1, images) == Some(images[if i == 0 then |images| - 1 else i - 1])
    ensures PreloadSource(i + 1, images) == Some(images[if i == |images| - 1 then 0 else i + 1])
  {
    WrapPrev(i, |images|);
    WrapNext(i, |images|);
  }

  /** What a touch end does, by `diff = touchStartX - touchEndX`. */
  datatype Swipe = NoSwipe | SwipeNext | SwipePrev

  /** `Math.abs(diff) > 50`, then `next` for a positive and `prev` for a negative difference. */
  function SwipeOf(diff: real): (s: Swipe)
    ensures s == SwipeNext <==> diff > 50.0
    ensures s == SwipePrev <==> diff < -50.0
    ensures s == NoSwipe <==> -50.0 <= diff <= 50.0
  {
    var magnitude := if diff < 0.0 then -diff else diff;
    if magnitude > 50.0 then (if diff > 0.0 then SwipeNext else SwipePrev) else NoSwipe
  }

  class Lightbox {
    /** The `.lightbox` element was found and `init` bound the handlers. */
    const bound: bool
    /** The image sources collected by `init`. */
    const images: seq<string>
    /** How many `.photo-grid__item`s have a click handler opening the lightbox. */
    const gridCount: nat
    /** Whether `.lightbox__image` and `.lightbox__counter` were found. */
    const hasImage: bool
    const hasCounter: bool
    var currentIndex: int
    /** The "active" class of the lightbox element. */
    var active: bool
    /** `image.src` and `counter.textContent`, as the model last wrote them; empty at first. */
    var shownSrc: string
    var counterText: string
    /** The sources of the preloading images made so far, in order. */
    var preloaded: seq<string>
    /** The screen x of the last touch start and touch end. */
    var touchStartX: real
    var touchEndX: real

    ghost predicate Valid()
      reads this
    {
      currentIndex >= 0 && forall k :: 0 <= k < |images| ==> images[k] != ""
    }

    /**
     * What `goTo` leaves behind when it lands on `i`, given the image
     * source, counter text and preloads from before it.
     */
    ghost predicate ShownAt(i: int, src: string, text: string, pre: seq<string>)
      reads this
      requires 0 <= i < |images|
    {
      && currentIndex == i
      && shownSrc == (if hasImage then images[i] else src)
      && counterText == (if hasCounter then CounterText(i, |images|) else text)
      && preloaded == pre + Preloads(i - 1, images) + Preloads(i + 1, images)
    }

    /** The image, the counter and the preloads are as they were. */
    ghost predicate SameDisplay(src: string, text: string, pre: seq<string>)
      reads this
    {
      shownSrc == src && counterText == text && preloaded == pre
    }

    /** The object literal and `init`, given what the DOM queries found. */
    constructor (hasElement: bool, imageFound: bool, counterFound: bool, grid: seq<Option<string>>)
      ensures Valid()
      ensures bound == hasElement
      ensures images == (if hasElement then Sources(grid) else [])
      ensures gridCount == (if hasElement then |grid| else 0)
      ensures hasImage == (hasElement && imageFound) && hasCounter == (hasElement && counterFound)
      ensures currentIndex == 0 && !active && preloaded == []
      ensures shownSrc == "" && counterText == ""
      ensures touchStartX == 0.0 && touchEndX == 0.0
    {
      bound := hasElement;
      images := if hasElement then Sources(grid) else [];
      gridCount := if hasElement then |grid| else 0;
      hasImage := hasElement && imageFound;
      hasCounter := hasElement && counterFound;
      currentIndex := 0;
      active := false;
      shownSrc := "";
      counterText := "";
      preloaded := [];
      touchStartX := 0.0;
      touchEndX := 0.0;
    }

    /** `updateImage()`: show the current source if there is one, and write the counter. */
    method UpdateImage()
      requires Valid()
      modifies this`shownSrc, this`counterText
      ensures shownSrc == if hasImage && currentIndex < |images| then images[currentIndex] else old(shownSrc)
      ensures counterText == if hasCounter then CounterText(currentIndex, |images|) else old(counterText)
    {
      if hasImage && currentIndex < |images| && images[currentIndex] != "" {
        shownSrc := images[currentIndex];
      }
      if hasCounter {
        counterText := CounterText(currentIndex, |images|);
      }
    }

    /** `preload(index)`. */
    method Preload(index: int)
      requires images == [] || index >= -|images|
      modifies this`preloaded
      ensures preloaded == old(preloaded) + Preloads(index, images)
    {
      var src := PreloadSource(index, images);
      if src.Some? {
        preloaded := preloaded + [src.value];
      }
    }

    /**
     * `open(index)` for grid item `index`: stored as it is, which is not an
     * image index when an earlier grid item has no image.
     */
    method Open(index: nat)
      requires Valid() && bound && index < gridCount
      modifies this`currentIndex, this`active, this`shownSrc, this`counterText, this`preloaded
      ensures Valid()
      ensures currentIndex == index && active
      ensures shownSrc == if hasImage && index < |images| then images[index] else old(shownSrc)
      ensures counterText == if hasCounter then CounterText(index, |images|) else old(counterText)
      ensures preloaded == old(preloaded) + Preloads(index - 1, images) + Preloads(index + 1, images)
    {
      currentIndex := index;
      UpdateImage();
      active := true;
      Preload(index - 1);
      Preload(index + 1);
    }

    /** `close()`. */
    method Close()
      modifies this`active
      ensures !active
    {
      active := false;
    }

    /** `goTo(index)`: wrap the index into range, show it and preload its neighbours. */
    method GoTo(index: int)
      requires Valid() && |images| > 0 && index >= -|images|
      modifies this`currentIndex, this`shownSrc, this`counterText, this`preloaded
      ensures Valid()
      ensures currentIndex == WrapIndex(index, |images|) && 0 <= currentIndex < |images|
      ensures shownSrc == if hasImage then images[currentIndex] else old(shownSrc)
      ensures counterText == if hasCounter then CounterText(currentIndex, |images|) else old(counterText)
      ensures preloaded == old(preloaded) + Preloads(currentIndex - 1, images) + Preloads(currentIndex + 1, images)
    {
      WrapIndexRange(index, |images|);
      currentIndex := WrapIndex(index, |images|);
      UpdateImage();
      Preload(currentIndex - 1);
      Preload(currentIndex + 1);
    }

    /**
     * `next()`. From a stored grid index past the last image it wraps by
     * `%`, so it lands in range too.
     */
    method Next()
      requires Valid() && |images| > 0
      modifies this`currentIndex, this`shownSrc, this`counterText, this`preloaded
      ensures Valid()
      ensures var i := WrapIndex(old(currentIndex) + 1, |images|);
              0 <= i < |images| && ShownAt(i, old(shownSrc), old(counterText), old(preloaded))
      ensures old(currentIndex) < |images| ==>
                currentIndex == if old(currentIndex) == |images| - 1 then 0 else old(currentIndex) + 1
    {
      if currentIndex < |images| {
        WrapNext(currentIndex, |images|);
      }
      GoTo(currentIndex + 1);
    }

    /** `prev()`. */
    method Prev()
      requires Valid() && |images| > 0
      modifies this`currentIndex, this`shownSrc, this`counterText, this`preloaded
      ensures Valid()
      ensures var i := WrapIndex(old(currentIndex) - 1, |images|);
              0 <= i < |images| && ShownAt(i, old(shownSrc), old(counterText), old(preloaded))
      ensures old(currentIndex) < |images| ==>
                currentIndex == if old(currentIndex) == 0 then |images| - 1 else old(currentIndex) - 1
    {
      if currentIndex < |images| {
        WrapPrev(currentIndex, |images|);
      }
      GoTo(currentIndex - 1);
    }

    /** The lightbox's keydown handler: only while open; Escape closes, the arrows step. */
    method HandleKey(key: string)
      requires Valid() && bound && |images| > 0
      modifies this`currentIndex, this`active, this`shownSrc, this`counterText, this`preloaded
      ensures Valid()
      ensures !old(active) ==>
                && active == old(active) && currentIndex == old(currentIndex)
                && SameDisplay(old(shownSrc), old(counterText), old(preloaded))
      ensures old(active) && key == "Escape" ==>
                !active && currentIndex == old(currentIndex) && SameDisplay(old(shownSrc), old(counterText), old(preloaded))
      ensures old(active) && key == "ArrowLeft" ==>
                var i := WrapIndex(old(currentIndex) - 1, |images|);
                active && 0 <= i < |images| && ShownAt(i, old(shownSrc), old(counterText), old(preloaded))
      ensures old(active) && key == "ArrowRight" ==>
                var i := WrapIndex(old(currentIndex) + 1, |images|);
                active && 0 <= i < |images| && ShownAt(i, old(shownSrc), old(counterText), old(preloaded))
      ensures old(active) && key != "Escape" && key != "ArrowLeft" && key != "ArrowRight" ==>
                active && currentIndex == old(currentIndex) && SameDisplay(old(shownSrc), old(counterText), old(preloaded))
    {
      if !active {
        return;
      }
      if key == "Escape" {
        Close();
      } else if key == "ArrowLeft" {
        Prev();
      } else if key == "ArrowRight" {
        Next();
      }
    }

    /** The touchstart handler. */
    method TouchStart(x: real)
      modifies this`touchStartX
      ensures touchStartX == x
    {
      touchStartX := x;
    }

    /** The touchend handler (it does not look at whether the lightbox is open). */
    method TouchEnd(x: real)
      requires Valid() && bound && |images| > 0
      modifies this`touchEndX, this`currentIndex, this`shownSrc, this`counterText, this`preloaded
      ensures Valid() && touchEndX == x
      ensures SwipeOf(touchStartX - x) == NoSwipe ==>
                currentIndex == old(currentIndex) && SameDisplay(old(shownSrc), old(counterText), old(preloaded))
      ensures SwipeOf(touchStartX - x) == SwipeNext ==>
                var i := WrapIndex(old(currentIndex) + 1, |images|);
                0 <= i < |images| && ShownAt(i, old(shownSrc), old(counterText), old(preloaded))
      ensures SwipeOf(touchStartX - x) == SwipePrev ==>
                var i := WrapIndex(old(currentIndex) - 1, |images|);
                0 <= i < |images| && ShownAt(i, old(shownSrc), old(counterText), old(preloaded))
    {
      touchEndX := x;
      var diff := touchStartX - touchEndX;
      var magnitude := if diff < 0.0 then -diff else diff;
      if magnitude > 50.0 {
        if diff > 0.0 {
          Next();
        } else {
          Prev();
        }
      }
    }

    /** A click on the lightbox element: closes only when the overlay itself was the target. */
    method OverlayClick(onOverlay: bool)
      modifies this`active
      ensures active == (old(active) && !onOverlay)
    {
      if onOverlay {
        Close();
      }
    }
  }

  /**
   * One keydown on the page: the slideshow's handler runs first (it was
   * registered first) and stands back while the lightbox is open; then the
   * lightbox's handler, which acts only while it is open. So a key moves
   * at most one of the two.
   */
  method KeyDown(show: Slideshow, box: Lightbox, key: string)
    requires show.Valid() && box.Valid()
    requires box.bound ==> |box.images| > 0
    modifies show`currentIndex, show.slides, show.indicators
    modifies box`currentIndex, box`active, box`shownSrc, box`counterText, box`preloaded
    ensures show.Valid() && box.Valid()
    // The widget that stands still.
    ensures old(box.active) || !show.bound || (key != "ArrowLeft" && key != "ArrowRight") ==>
              && show.currentIndex == old(show.currentIndex)
              && show.slides[..] == old(show.slides[..]) && show.indicators[..] == old(show.indicators[..])
    ensures !old(box.active) || !box.bound ==>
              && box.currentIndex == old(box.currentIndex) && box.active == old(box.active)
              && box.SameDisplay(old(box.shownSrc), old(box.counterText), old(box.preloaded))
    // The slideshow steps on an arrow while the lightbox is closed.
    ensures !old(box.active) && show.bound && key == "ArrowLeft" ==>
              && show.currentIndex == (if old(show.currentIndex) == 0 then show.slides.Length - 1 else old(show.currentIndex) - 1)
              && show.slides[..] == Moved(old(show.slides[..]), old(show.currentIndex), show.currentIndex)
              && show.indicators[..] == Remarked(old(show.indicators[..]), old(show.currentIndex), show.currentIndex)
    ensures !old(box.active) && show.bound && key == "ArrowRight" ==>
              && show.currentIndex == (if old(show.currentIndex) == show.slides.Length - 1 then 0 else old(show.currentIndex) + 1)
              && show.slides[..] == Moved(old(show.slides[..]), old(show.currentIndex), show.currentIndex)
              && show.indicators[..] == Remarked(old(show.indicators[..]), old(show.currentIndex), show.currentIndex)
    // The open lightbox closes on Escape and steps on an arrow.
    ensures old(box.active) && box.bound && key == "Escape" ==>
              && !box.active && box.currentIndex == old(box.currentIndex)
              && box.SameDisplay(old(box.shownSrc), old(box.counterText), old(box.preloaded))
    ensures old(box.active) && box.bound && key == "ArrowLeft" ==>
              var i := WrapIndex(old(box.currentIndex) - 1, |box.images|);
              box.active && 0 <= i < |box.images| && box.ShownAt(i, old(box.shownSrc), old(box.counterText), old(box.preloaded))
    ensures old(box.active) && box.bound && key == "ArrowRight" ==>
              var i := WrapIndex(old(box.currentIndex) + 1, |box.images|);
              box.active && 0 <= i < |box.images| && box.ShownAt(i, old(box.shownSrc), old(box.counterText), old(box.preloaded))
    ensures old(box.active) && box.bound && key != "Escape" && key != "ArrowLeft" && key != "ArrowRight" ==>
              && box.active && box.currentIndex == old(box.currentIndex)
              && box.SameDisplay(old(box.shownSrc), old(box.counterText), old(box.preloaded))
  {
    if show.bound {
      show.OnKey(key, box.active);
    }
    if box.bound {
      box.HandleKey(key);
    }
  }
}
