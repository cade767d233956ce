/**
 * The slide index of the hero slideshow: the index is kept modulo the number
 * of slides, `next` and the 5-second interval tick move it forward, `prev`
 * moves it back, and with a single slide nothing moves and no interval runs.
 */
module SlideCycle {
  import opened JsText
  import opened Wrappers
  import PathSanitizer

  /** `(v+1) % n`: one slide forward, wrapping from the last to the first. */
  function NextIndex(v: nat, n: nat): (r: nat)
    requires v < n
    ensures r < n
    ensures r == if v == n - 1 then 0 else v + 1
  {
    (v + 1) % n
  }

  /** `(v-1+n) % n`: one slide back, wrapping from the first to the last. */
  function PrevIndex(v: nat, n: nat): (r: nat)
    requires v < n
    ensures r < n
    ensures r == if v == 0 then n - 1 else v - 1
  {
    (v - 1 + n) % n
  }

  /** The index after `k` ticks starting from `v`. */
  function Advance(v: nat, n: nat, k: nat): (r: nat)
    requires v < n
    ensures r < n
  {
    if k == 0 then v else NextIndex(Advance(v, n, k - 1), n)
  }

  /** `prev` undoes `next` and `next` undoes `prev`. */
  lemma NextPrevInverse(v: nat, n: nat)
    requires v < n
    ensures PrevIndex(NextIndex(v, n), n) == v
    ensures NextIndex(PrevIndex(v, n), n) == v
  {
  }

  /** Ticks that do not reach the end of the list move the index one place each. */
  lemma {:induction false} AdvanceInRange(v: nat, n: nat, k: nat)
    requires v + k < n
    ensures Advance(v, n, k) == v + k
  {
    if k > 0 {
      AdvanceInRange(v, n, k - 1);
    }
  }

  /** `a` ticks then `b` ticks is `a + b` ticks. */
  lemma {:induction false} AdvanceAdd(v: nat, n: nat, a: nat, b: nat)
    requires v < n
    ensures Advance(v, n, a + b) == Advance(Advance(v, n, a), n, b)
  {
    if b > 0 {
      AdvanceAdd(v, n, a, b - 1);
    }
  }

  /** After as many ticks as there are slides the index is back where it started. */
  lemma FullCycle(v: nat, n: nat)
    requires v < n
    ensures Advance(v, n, n) == v
  {
    var m := n - 1 - v;
    AdvanceInRange(v, n, m);
    AdvanceAdd(v, n, m, 1);
    assert Advance(n - 1, n, 1) == NextIndex(n - 1, n) == 0;
    AdvanceAdd(v, n, m + 1, v);
    AdvanceInRange(0, n, v);
  }

  /** The index sequence repeats with period `n`. */
  lemma Periodic(v: nat, n: nat, k: nat)
    requires v < n
    ensures Advance(v, n, n + k) == Advance(v, n, k)
  {
    AdvanceAdd(v, n, n, k);
    FullCycle(v, n);
  }

  /** The state of one `Hero` slideshow. */
  class Hero {
    /** `computeSlides(slideFiles)`, fixed for the life of the component. */
    const slides: seq<string>
    /** `i`: the index of the visible slide. */
    var index: nat

    ghost predicate Valid()
      reads this
    {
      |slides| >= 1 && index < |slides|
    }

    /** `many`: more than one slide, so the arrows show and the interval runs. */
    predicate Many()
      ensures Many() <==> |slides| >= 2
    {
      |slides| > 1
    }

    /** Mounting: the slides from the file list, the first one showing. */
    constructor (slideFiles: seq<JsValue>)
      ensures Valid()
      ensures slides == PathSanitizer.ComputeSlides(Some(slideFiles))
      ensures index == 0
    {
      slides := PathSanitizer.ComputeSlides(Some(slideFiles));
      index := 0;
    }

    /** The "Next" arrow. */
    method Next()
      requires Valid()
      modifies this`index
      ensures Valid()
      ensures index == if Many() then NextIndex(old(index), |slides|) else old(index)
    {
      if Many() {
        index := (index + 1) % |slides|;
      }
    }

    /** The "Prev" arrow. */
    method Prev()
      requires Valid()
      modifies this`index
      ensures Valid()
      ensures index == if Many() then PrevIndex(old(index), |slides|) else old(index)
    {
      if Many() {
        index := (index - 1 + |slides|) % |slides|;
      }
    }

    /** One firing of the interval, which exists only while there are several slides. */
    method Tick()
      requires Valid() && Many()
      modifies this`index
      ensures Valid()
      ensures index == NextIndex(old(index), |slides|)
    {
      index := (index + 1) % |slides|;
    }
  }

  /**
   * A client with three slides at index 0: prev wraps to 2, next comes back
   * to 0, and five ticks then visit 1, 2, 0, 1, 2.
   */
  method ThreeSlides(h: Hero)
    requires h.Valid() && |h.slides| == 3 && h.index == 0
    modifies h
    ensures h.Valid() && h.index == 2
  {
    h.Prev();
    assert h.index == 2;
    h.Next();
    assert h.index == 0;
    h.Tick();
    assert h.index == 1;
    h.Tick();
    assert h.index == 2;
    h.Tick();
    assert h.index == 0;
    h.Tick();
    assert h.index == 1;
    h.Tick();
    assert h.index == 2;
  }

  /** A client with one slide: the arrows change nothing, and no tick can happen. */
  method OneSlide(h: Hero)
    requires h.Valid() && |h.slides| == 1
    modifies h
    ensures h.Valid() && h.index == 0
  {
    assert h.index == 0 && !h.Many();
    h.Next();
    assert h.index == 0;
    h.Prev();
    assert h.index == 0;
  }
}
