/**
 * The batching arithmetic of the deduplicator: lists of up to 25 items go to
 * the classifier in one call; longer lists are cut into windows of 15 items
 * that start every 12 items, so consecutive windows share 3 items.
 */
module Windows {

  const SingleBatchLimit: nat := 25
  const BatchSize: nat := 15
  const Overlap: nat := 3
  const Stride: nat := BatchSize - Overlap

  /** The first index of window w: `range(0, n, batch_size - overlap)`. */
  function WindowStart(w: nat): (s: nat)
    ensures s % Stride == 0 && s / Stride == w
  {
    Stride * w
  }

  /** One past the last index of window w of a list of n items: `min(start + batch_size, n)`. */
  function WindowEnd(w: nat, n: nat): (e: nat)
    ensures e <= n && e <= WindowStart(w) + BatchSize
    ensures e == n || e == WindowStart(w) + BatchSize
  {
    if WindowStart(w) + BatchSize <= n then WindowStart(w) + BatchSize else n
  }

  /** Window w exists (is visited by the loop) exactly when it starts inside the list. */
  predicate HasWindow(w: nat, n: nat)
    ensures HasWindow(w, n) <==> w < (n + Stride - 1) / Stride
  {
    WindowStart(w) < n
  }

  /** Every existing window is non-empty and holds 15 items unless it is cut by the end of the list. */
  lemma WindowSize(w: nat, n: nat)
    requires HasWindow(w, n)
    ensures 0 < WindowEnd(w, n) - WindowStart(w) <= BatchSize
    ensures WindowEnd(w, n) < n ==> WindowEnd(w, n) - WindowStart(w) == BatchSize
  {
  }

  /** The windows are visited in order: the windows that exist are exactly 0 .. k-1 for some k. */
  lemma WindowsArePrefix(w: nat, v: nat, n: nat)
    requires v <= w && HasWindow(w, n)
    ensures HasWindow(v, n)
  {
  }

  /** Every index of the list lies in window i / 12, which exists. */
  lemma EveryIndexCovered(i: nat, n: nat)
    requires i < n
    ensures HasWindow(i / Stride, n)
    ensures WindowStart(i / Stride) <= i < WindowEnd(i / Stride, n)
  {
  }

  /**
   * Consecutive windows share their last 3 items (fewer when the list ends
   * first), and no item lies in window w and window w + 2.
   */
  lemma ConsecutiveWindowsOverlap(w: nat, n: nat)
    requires HasWindow(w + 1, n)
    ensures WindowEnd(w, n) - WindowStart(w + 1) == if n - WindowStart(w + 1) < Overlap then n - WindowStart(w + 1) else Overlap
    ensures WindowEnd(w, n) <= WindowStart(w + 2)
  {
  }
}
