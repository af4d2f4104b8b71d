/** `scroll_to_bottom`: scroll until two consecutive height measurements agree. */
module Scroll {

  /** The browser session as the scroll loop sees it. The page's reaction to
      scrolling is abstracted into the heights it will report, in order; the
      counters record how many scripts of each kind have run. */
  class Driver {
    /** `document.body.scrollHeight` as returned by successive measurements. */
    var heights: seq<int>
    /** How many measurements have been taken so far. */
    var measured: nat
    /** How many `window.scrollTo(0, document.body.scrollHeight)` calls have run. */
    var scrolls: nat

    constructor (heights: seq<int>)
      ensures this.heights == heights && measured == 0 && scrolls == 0
    {
      this.heights := heights;
      measured := 0;
      scrolls := 0;
    }

    /** Run the script that returns the page height. */
    method MeasureHeight() returns (h: int)
      requires measured < |heights|
      modifies this`measured
      ensures h == heights[old(measured)] && measured == old(measured) + 1
    {
      h := heights[measured];
      measured := measured + 1;
    }

    /** Run the script that scrolls to the current bottom. */
    method ScrollToEnd()
      modifies this`scrolls
      ensures scrolls == old(scrolls) + 1
    {
      scrolls := scrolls + 1;
    }
  }

  /** Some measurement after the one at `from` repeats the one before it. */
  predicate Stabilises(heights: seq<int>, from: nat)
  {
    exists k :: from < k < |heights| && heights[k] == heights[k - 1]
  }

  /** How many scroll-and-measure rounds the loop makes when its first
      measurement is the one at `from`: up to the first repeated height. */
  function Rounds(heights: seq<int>, from: nat): (n: nat)
    requires Stabilises(heights, from)
    ensures n >= 1 && from + n < |heights|
    ensures heights[from + n] == heights[from + n - 1]
    ensures forall k :: from < k < from + n ==> heights[k] != heights[k - 1]
    decreases |heights| - from
  {
    if heights[from + 1] == heights[from] then 1
    else
      assert Stabilises(heights, from + 1) by {
        var k :| from < k < |heights| && heights[k] == heights[k - 1];
        assert k != from + 1;
      }
      1 + Rounds(heights, from + 1)
  }

  /** A page that never grows: one round. */
  lemma FixedPageOneRound(heights: seq<int>, from: nat)
    requires from + 1 < |heights| && heights[from + 1] == heights[from]
    ensures Stabilises(heights, from) && Rounds(heights, from) == 1
  {
  }

  /** A page whose height changes on each of `n` scrolls and then holds:
      `n + 1` rounds. */
  lemma {:induction false} ChangesThenHolds(heights: seq<int>, from: nat, n: nat)
    requires from + n + 1 < |heights|
    requires forall k :: from < k <= from + n ==> heights[k] != heights[k - 1]
    requires heights[from + n + 1] == heights[from + n]
    ensures Stabilises(heights, from) && Rounds(heights, from) == n + 1
    decreases n
  {
    assert from < from + n + 1 < |heights|;
    if n > 0 {
      ChangesThenHolds(heights, from + 1, n - 1);
    }
  }

  /** A page that grows on each of `n` scrolls and then stops growing: `n + 1` rounds. */
  lemma GrowsThenHolds(heights: seq<int>, n: nat)
    requires n + 1 < |heights|
    requires forall k :: 0 < k <= n ==> heights[k - 1] < heights[k]
    requires heights[n + 1] == heights[n]
    ensures Stabilises(heights, 0) && Rounds(heights, 0) == n + 1
  {
    ChangesThenHolds(heights, 0, n);
  }

  /** The loop: measure, then scroll and measure again until a new height equals
      the previous one. It stops at the first measurement equal to the one before
      it, after exactly `Rounds` scrolls and one more measurement than scrolls. A
      page where no measurement ever equals the one before it makes the source
      loop forever, which `Stabilises` excludes. */
  method ScrollToBottom(driver: Driver)
    requires Stabilises(driver.heights, driver.measured)
    modifies driver
    ensures driver.heights == old(driver.heights)
    ensures driver.scrolls == old(driver.scrolls) + Rounds(driver.heights, old(driver.measured))
    ensures driver.measured == old(driver.measured) + Rounds(driver.heights, old(driver.measured)) + 1
  {
    ghost var start := driver.measured;
    ghost var rounds := Rounds(driver.heights, start);
    var bottomHeight := driver.MeasureHeight();
    var stop := false;
    while !stop
      invariant driver.heights == old(driver.heights)
      invariant start < driver.measured <= start + rounds + 1
      invariant bottomHeight == driver.heights[driver.measured - 1]
      invariant driver.scrolls == old(driver.scrolls) + (driver.measured - start - 1)
      invariant stop <==> driver.measured == start + rounds + 1
      decreases start + rounds + 1 - driver.measured
    {
      driver.ScrollToEnd();
      var newBottomHeight := driver.MeasureHeight();
      if newBottomHeight == bottomHeight {
        stop := true;
      }
      bottomHeight := newBottomHeight;
    }
  }
}
