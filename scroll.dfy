/**
 * The bounded infinite-scroll loop run before the feed is parsed
 * (`scroll_down_infinite`). The browser is replaced by what it reports: `heightAfter(k)` is
 * the page height the driver returns after `k` scroll commands (`heightAfter(0)` is the
 * height read before the first scroll).
 */
module Scroll {

  /**
   * Runs the scroll loop and returns how many scroll commands it issued and the final value
   * of `last_height`. The loop gives up after `attempts` scrolls, or right after the first
   * scroll that leaves the height unchanged, whichever comes first.
   */
  method ScrollDownInfinite(heightAfter: nat -> int, attempts: nat) returns (scrolls: nat, lastHeight: int)
    ensures scrolls <= attempts
    ensures lastHeight == heightAfter(scrolls)
    ensures forall k :: 1 <= k < scrolls ==> heightAfter(k) != heightAfter(k - 1)
    ensures scrolls < attempts ==> 1 <= scrolls && heightAfter(scrolls) == heightAfter(scrolls - 1)
  {
    lastHeight := heightAfter(0);
    scrolls := 0;
    while scrolls < attempts
      invariant scrolls <= attempts
      invariant lastHeight == heightAfter(scrolls)
      invariant forall k :: 1 <= k <= scrolls ==> heightAfter(k) != heightAfter(k - 1)
    {
      scrolls := scrolls + 1;
      var newHeight := heightAfter(scrolls);
      if newHeight == lastHeight {
        return;
      }
      lastHeight := newHeight;
    }
  }
}
