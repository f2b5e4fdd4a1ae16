/**
 * The overlapping-batches path of the deduplicator
 * (`process_overlapping_batches`). Each window of the list is judged by one
 * classifier call; a set of processed indices makes sure that an item decided
 * in one window (kept or marked duplicate) is not decided again in the next,
 * and a window whose call or parse fails keeps its undecided items.
 */
module OverlappingBatches {
  import opened Wrappers
  import opened PyJson
  import opened Judgments
  import opened Windows
  import ResponseParser

  /**
   * The loop's state: `processed_indices`, and the list indices of the items
   * in `all_deduplicated`, in order.
   */
  datatype RunState = RunState(processed: set<nat>, kept: seq<nat>)

  /** The state before the first window. */
  const Start: RunState := RunState({}, [])

  /** Every kept index is processed, and no index is kept twice. */
  predicate Valid(st: RunState) {
    && (forall k :: 0 <= k < |st.kept| ==> st.kept[k] in st.processed)
    && (forall k, l :: 0 <= k < l < |st.kept| ==> st.kept[k] != st.kept[l])
  }

  /**
   * r is st after work on indices s .. e-1 only: processed indices are never
   * forgotten, new ones lie in [s, e), kept indices are only appended, and an
   * index appended was not processed before.
   */
  predicate Extends(st: RunState, r: RunState, s: nat, e: nat) {
    && st.processed <= r.processed
    && (forall i :: i in r.processed && i !in st.processed ==> s <= i < e)
    && |st.kept| <= |r.kept| && r.kept[..|st.kept|] == st.kept
    && (forall k :: |st.kept| <= k < |r.kept| ==> s <= r.kept[k] < e && r.kept[k] !in st.processed && r.kept[k] in r.processed)
    && (forall k, l :: |st.kept| <= k < l < |r.kept| ==> r.kept[k] != r.kept[l])
  }

  lemma ExtendsTrans(a: RunState, b: RunState, c: RunState, s: nat, e: nat)
    requires Extends(a, b, s, e) && Extends(b, c, s, e)
    ensures Extends(a, c, s, e)
  {
    assert c.kept[..|a.kept|] == c.kept[..|b.kept|][..|a.kept|];
    forall k | |a.kept| <= k < |c.kept|
      ensures s <= c.kept[k] < e && c.kept[k] !in a.processed && c.kept[k] in c.processed
    {
      if k < |b.kept| {
        assert c.kept[k] == b.kept[k];
      }
    }
    forall k, l | |a.kept| <= k < l < |c.kept| ensures c.kept[k] != c.kept[l] {
      if k < |b.kept| {
        assert c.kept[k] == b.kept[k];
      }
      if l < |b.kept| {
        assert c.kept[l] == b.kept[l];
      }
    }
  }

  lemma ExtendsWiden(st: RunState, r: RunState, s: nat, e: nat, s': nat, e': nat)
    requires Extends(st, r, s, e) && s' <= s && e <= e'
    ensures Extends(st, r, s', e')
  {
  }

  lemma ExtendsKeepsValid(st: RunState, r: RunState, s: nat, e: nat)
    requires Valid(st) && Extends(st, r, s, e)
    ensures Valid(r)
  {
    forall k, l | 0 <= k < l < |r.kept| ensures r.kept[k] != r.kept[l] {
      if l >= |st.kept| && k < |st.kept| {
        assert r.kept[k] == st.kept[k];
      }
    }
  }

  /** Index i is appended and marked processed, unless it is processed already. */
  function KeepIfUndecided(i: nat, st: RunState): RunState {
    if i in st.processed then st else RunState(st.processed + {i}, st.kept + [i])
  }

  /** The fallback of a failed window [s, e): every index of it not yet processed is kept, in order. */
  function Fallback(s: nat, e: nat, st: RunState): RunState
    decreases e - s
  {
    if s >= e then st else Fallback(s + 1, e, KeepIfUndecided(s, st))
  }

  /** The effect of one record's verdict on the state, for the window starting at s. */
  function ApplyVerdict(v: Verdict, s: nat, st: RunState): RunState {
    match v
    case Keep(p) => KeepIfUndecided(s + p, st)
    case Drop(p) => RunState(st.processed + {s + p}, st.kept)
    case _ => st
  }

  /**
   * The records js of the window [s, e), in order; the first record that
   * raises sends the window to the fallback, from the state reached so far.
   */
  function ApplyJudgments(js: seq<Json>, s: nat, e: nat, st: RunState): RunState
    requires s <= e
  {
    if js == [] then st
    else
      var v := WindowVerdict(js[0], e - s);
      if v.Raises? then Fallback(s, e, st)
      else ApplyJudgments(js[1..], s, e, ApplyVerdict(v, s, st))
  }

  /** One window [s, e) with the classifier's reply for it. */
  function StepWindow(s: nat, e: nat, reply: Reply, loads: Loads, st: RunState): RunState
    requires s <= e
  {
    match reply
    case CallFailed => Fallback(s, e, st)
    case Text(raw) =>
      match ResponseParser.ParseBatchResult(raw, loads)
      case None => Fallback(s, e, st)
      case Some(parsed) =>
        if parsed.JNull? then Fallback(s, e, st)
        else
          match Elements(parsed)
          case None => Fallback(s, e, st)
          case Some(js) => ApplyJudgments(js, s, e, st)
  }

  /** Windows w, w+1, ... of a list of n items, the k-th call getting replies(k). */
  function RunFrom(w: nat, n: nat, replies: Replies, loads: Loads, st: RunState): RunState
    decreases n - WindowStart(w)
  {
    if !HasWindow(w, n) then st
    else RunFrom(w + 1, n, replies, loads, StepWindow(WindowStart(w), WindowEnd(w, n), replies(w), loads, st))
  }

  /** Keeping an undecided index i only touches i, and marks it processed. */
  lemma KeepIfUndecidedExtends(i: nat, st: RunState)
    ensures Extends(st, KeepIfUndecided(i, st), i, i + 1)
    ensures i in KeepIfUndecided(i, st).processed
  {
  }

  /** The fallback only keeps or marks indices of its own window. */
  lemma {:induction false} FallbackExtends(s: nat, e: nat, st: RunState)
    ensures Extends(st, Fallback(s, e, st), s, e)
    decreases e - s
  {
    if s < e {
      var next := KeepIfUndecided(s, st);
      KeepIfUndecidedExtends(s, st);
      FallbackExtends(s + 1, e, next);
      ExtendsWiden(st, next, s, s + 1, s, e);
      ExtendsWiden(next, Fallback(s + 1, e, next), s + 1, e, s, e);
      ExtendsTrans(st, next, Fallback(s + 1, e, next), s, e);
    } else {
      assert st.kept[..|st.kept|] == st.kept;
    }
  }

  /** The indices of [s, e) that are not in p, in increasing order. */
  function Undecided(s: nat, e: nat, p: set<nat>): seq<nat>
    decreases e - s
  {
    if s >= e then [] else (if s in p then [] else [s]) + Undecided(s + 1, e, p)
  }

  /** Marking an index below s changes nothing about the undecided indices from s on. */
  lemma {:induction false} UndecidedAbove(s: nat, e: nat, p: set<nat>, x: nat)
    requires x < s
    ensures Undecided(s, e, p + {x}) == Undecided(s, e, p)
    decreases e - s
  {
    if s < e {
      UndecidedAbove(s + 1, e, p, x);
    }
  }

  /**
   * The fallback of a failed window appends exactly the window's undecided
   * indices, in window order, after what was kept before.
   */
  lemma {:induction false} FallbackKeepsUndecided(s: nat, e: nat, st: RunState)
    ensures Fallback(s, e, st).kept == st.kept + Undecided(s, e, st.processed)
    decreases e - s
  {
    if s < e {
      var next := KeepIfUndecided(s, st);
      FallbackKeepsUndecided(s + 1, e, next);
      if s !in st.processed {
        UndecidedAbove(s + 1, e, st.processed, s);
        assert st.kept + Undecided(s, e, st.processed) == (st.kept + [s]) + Undecided(s + 1, e, st.processed);
      }
    }
  }

  /** After the fallback of a failed window every index of the window is processed. */
  lemma {:induction false} FallbackDecidesWindow(s: nat, e: nat, st: RunState, i: nat)
    requires s <= i < e
    ensures i in Fallback(s, e, st).processed
    decreases e - s
  {
    var next := KeepIfUndecided(s, st);
    if i == s {
      FallbackExtends(s + 1, e, next);
    } else {
      FallbackDecidesWindow(s + 1, e, next, i);
    }
  }

  /** A verdict about position p of the window starting at s touches only index s + p. */
  lemma ApplyVerdictExtends(v: Verdict, s: nat, e: nat, st: RunState)
    requires (v.Keep? || v.Drop?) ==> s + v.pos < e
    ensures Extends(st, ApplyVerdict(v, s, st), s, e)
  {
    assert st.kept[..|st.kept|] == st.kept;
    if v.Keep? {
      KeepIfUndecidedExtends(s + v.pos, st);
    }
  }

  /** Judging a window only keeps or marks indices of that window. */
  lemma {:induction false} ApplyJudgmentsExtends(js: seq<Json>, s: nat, e: nat, st: RunState)
    requires s <= e
    ensures Extends(st, ApplyJudgments(js, s, e, st), s, e)
  {
    if js == [] {
      assert st.kept[..|st.kept|] == st.kept;
    } else {
      var v := WindowVerdict(js[0], e - s);
      if v.Raises? {
        FallbackExtends(s, e, st);
      } else {
        var next := ApplyVerdict(v, s, st);
        ApplyVerdictExtends(v, s, e, st);
        ApplyJudgmentsExtends(js[1..], s, e, next);
        ExtendsTrans(st, next, ApplyJudgments(js[1..], s, e, next), s, e);
      }
    }
  }

  /** A window, whatever its reply, only keeps or marks its own indices. */
  lemma StepWindowExtends(s: nat, e: nat, reply: Reply, loads: Loads, st: RunState)
    requires s <= e
    ensures Extends(st, StepWindow(s, e, reply, loads, st), s, e)
  {
    FallbackExtends(s, e, st);
    if reply.Text? {
      var parsed := ResponseParser.ParseBatchResult(reply.text, loads);
      if parsed.Some? && !parsed.value.JNull? && Elements(parsed.value).Some? {
        ApplyJudgmentsExtends(Elements(parsed.value).value, s, e, st);
      }
    }
  }

  /** The windows from w on only keep or mark indices from window w's start to n. */
  lemma {:induction false} RunFromExtends(w: nat, n: nat, replies: Replies, loads: Loads, st: RunState)
    ensures Extends(st, RunFrom(w, n, replies, loads, st), WindowStart(w), n)
    decreases n - WindowStart(w)
  {
    if HasWindow(w, n) {
      var next := StepWindow(WindowStart(w), WindowEnd(w, n), replies(w), loads, st);
      StepWindowExtends(WindowStart(w), WindowEnd(w, n), replies(w), loads, st);
      RunFromExtends(w + 1, n, replies, loads, next);
      ExtendsWiden(st, next, WindowStart(w), WindowEnd(w, n), WindowStart(w), n);
      ExtendsWiden(next, RunFrom(w + 1, n, replies, loads, next), WindowStart(w + 1), n, WindowStart(w), n);
      ExtendsTrans(st, next, RunFrom(w + 1, n, replies, loads, next), WindowStart(w), n);
    } else {
      assert st.kept[..|st.kept|] == st.kept;
    }
  }

  /** The items at the given indices, in order (an index past the end contributes nothing). */
  function ItemsAt<T>(items: seq<T>, idx: seq<nat>): (r: seq<T>)
    ensures |r| <= |idx|
  {
    if idx == [] then []
    else
      var rest := ItemsAt(items, idx[..|idx| - 1]);
      if idx[|idx| - 1] < |items| then rest + [items[idx[|idx| - 1]]] else rest
  }

  /** With every index in range, ItemsAt reads exactly items[idx[k]] at position k. */
  lemma {:induction false} ItemsAtInRange<T>(items: seq<T>, idx: seq<nat>)
    requires forall k :: 0 <= k < |idx| ==> idx[k] < |items|
    ensures |ItemsAt(items, idx)| == |idx|
    ensures forall k :: 0 <= k < |idx| ==> ItemsAt(items, idx)[k] == items[idx[k]]
  {
    if idx != [] {
      ItemsAtInRange(items, idx[..|idx| - 1]);
    }
  }

  /** The list indices of the items `process_overlapping_batches` returns. */
  function KeptIndices(n: nat, replies: Replies, loads: Loads): (r: seq<nat>)
    ensures forall k :: 0 <= k < |r| ==> r[k] < n
  {
    RunFromExtends(0, n, replies, loads, Start);
    RunFrom(0, n, replies, loads, Start).kept
  }

  /** What `process_overlapping_batches` returns. */
  function OverlappingResult<T>(items: seq<T>, replies: Replies, loads: Loads): seq<T> {
    ItemsAt(items, KeptIndices(|items|, replies, loads))
  }

  /** No item is returned twice, and the output is never longer than the input. */
  lemma {:induction false} NoItemTwice(n: nat, replies: Replies, loads: Loads)
    ensures var r := KeptIndices(n, replies, loads);
      (forall k, l :: 0 <= k < l < |r| ==> r[k] != r[l]) && |r| <= n
  {
    var st := RunFrom(0, n, replies, loads, Start);
    RunFromExtends(0, n, replies, loads, Start);
    ExtendsKeepsValid(Start, st, 0, n);
    DistinctBounded(st.kept, n);
  }

  /** A sequence of distinct naturals below n has at most n elements. */
  lemma {:induction false} DistinctBounded(xs: seq<nat>, n: nat)
    requires forall k :: 0 <= k < |xs| ==> xs[k] < n
    requires forall k, l :: 0 <= k < l < |xs| ==> xs[k] != xs[l]
    ensures |xs| <= n
    decreases |xs|
  {
    if xs != [] {
      var last := xs[|xs| - 1];
      var init := xs[..|xs| - 1];
      // drop the last element, and rename the value n - 1 to it so that init lies below n - 1
      var renamed := seq(|init|, k requires 0 <= k < |init| => if init[k] == n - 1 then last else init[k]);
      forall k, l | 0 <= k < l < |renamed| ensures renamed[k] != renamed[l] {
        assert init[k] != init[l] && init[k] != last && init[l] != last;
      }
      DistinctBounded(renamed, n - 1);
    }
  }

  /** `range(a, b)` as a list. */
  function Range(a: nat, b: nat): (r: seq<nat>)
    ensures |r| == if a <= b then b - a else 0
    ensures forall k :: 0 <= k < |r| ==> r[k] == a + k
    decreases b
  {
    if b <= a then [] else Range(a, b - 1) + [b - 1]
  }

  /** The state in which exactly the indices 0 .. hi-1 are processed and kept, in order. */
  function Prefix(hi: nat): RunState {
    RunState(Below(hi), Range(0, hi))
  }

  /** The set of naturals below hi. */
  function Below(hi: nat): (r: set<nat>)
    ensures forall i: nat :: i in r <==> i < hi
  {
    if hi == 0 then {} else Below(hi - 1) + {hi - 1}
  }

  /** Falling back over [s, e) from a prefix state that reaches into it extends the prefix to e. */
  lemma {:induction false} FallbackExtendsPrefix(s: nat, e: nat, hi: nat)
    requires s <= hi <= e
    ensures Fallback(s, e, Prefix(hi)) == Prefix(e)
    decreases e - s
  {
    if s < e {
      if s < hi {
        FallbackExtendsPrefix(s + 1, e, hi);
      } else {
        FallbackExtendsPrefix(s + 1, e, hi + 1);
      }
    }
  }

  /** The induction behind FailedCallsKeepAll: from window w on, with 0 .. hi-1 already kept. */
  lemma {:induction false} FailedCallsFrom(w: nat, n: nat, replies: Replies, loads: Loads, hi: nat)
    requires forall k :: replies(k) == CallFailed
    requires hi <= n && hi <= WindowStart(w) + BatchSize
    requires HasWindow(w, n) ==> WindowStart(w) <= hi
    requires !HasWindow(w, n) ==> hi == n
    ensures RunFrom(w, n, replies, loads, Prefix(hi)) == Prefix(n)
    decreases n - WindowStart(w)
  {
    if HasWindow(w, n) {
      var e := WindowEnd(w, n);
      FallbackExtendsPrefix(WindowStart(w), e, hi);
      FailedCallsFrom(w + 1, n, replies, loads, e);
    }
  }

  /** When every classifier call fails, every item is kept, in order. */
  lemma FailedCallsKeepAll<T>(items: seq<T>, replies: Replies, loads: Loads)
    requires forall k :: replies(k) == CallFailed
    ensures OverlappingResult(items, replies, loads) == items
  {
    FailedCallsFrom(0, |items|, replies, loads, 0);
    assert Prefix(0) == Start;
    var idx := Range(0, |items|);
    ItemsAtInRange(items, idx);
    assert ItemsAt(items, idx) == items;
  }

  /**
   * An index that is processed before window w and not kept by then is never
   * returned: a duplicate verdict is final even when a later window sees the
   * item again.
   */
  lemma DecidedStaysDecided(w: nat, n: nat, replies: Replies, loads: Loads, st: RunState, i: nat)
    requires i in st.processed && i !in st.kept
    ensures i !in RunFrom(w, n, replies, loads, st).kept
  {
    var r := RunFrom(w, n, replies, loads, st);
    RunFromExtends(w, n, replies, loads, st);
    forall k | 0 <= k < |r.kept| ensures r.kept[k] != i {
      if k < |st.kept| {
        assert r.kept[k] == st.kept[k];
      }
    }
  }

  lemma ItemsAtSnoc<T>(items: seq<T>, idx: seq<nat>, i: nat)
    requires i < |items|
    ensures ItemsAt(items, idx + [i]) == ItemsAt(items, idx) + [items[i]]
  {
    assert (idx + [i])[..|idx|] == idx;
  }

  lemma FallbackStep(i: nat, e: nat, st: RunState)
    requires i < e
    ensures Fallback(i, e, st) == Fallback(i + 1, e, KeepIfUndecided(i, st))
  {
  }

  /** The fallback over [s, e): the loop that keeps the window's undecided items. */
  method KeepUndecided<T>(items: seq<T>, s: nat, e: nat, processed: set<nat>, out: seq<T>, kept: seq<nat>)
    returns (processed': set<nat>, out': seq<T>, kept': seq<nat>)
    requires s <= e <= |items|
    requires out == ItemsAt(items, kept)
    ensures RunState(processed', kept') == Fallback(s, e, RunState(processed, kept))
    ensures out' == ItemsAt(items, kept')
  {
    processed', out', kept' := processed, out, kept;
    for i := s to e
      invariant Fallback(i, e, RunState(processed', kept')) == Fallback(s, e, RunState(processed, kept))
      invariant out' == ItemsAt(items, kept')
    {
      FallbackStep(i, e, RunState(processed', kept'));
      if i !in processed' {
        ItemsAtSnoc(items, kept', i);
        out' := out' + [items[i]];
        kept' := kept' + [i];
        processed' := processed' + {i};
      }
    }
  }

  /** Judging the records from j on is judging record j, then the ones after it. */
  lemma ApplyJudgmentsStep(js: seq<Json>, j: nat, s: nat, e: nat, st: RunState)
    requires j < |js| && s <= e
    ensures var v := WindowVerdict(js[j], e - s);
      ApplyJudgments(js[j..], s, e, st) ==
        if v.Raises? then Fallback(s, e, st) else ApplyJudgments(js[j + 1..], s, e, ApplyVerdict(v, s, st))
  {
    assert js[j..][0] == js[j];
    assert js[j..][1..] == js[j + 1..];
  }

  /** A "no" verdict for position p appends s + p and marks it processed, unless it is processed already. */
  lemma KeepStep(p: nat, s: nat, processed: set<nat>, kept: seq<nat>)
    ensures ApplyVerdict(Keep(p), s, RunState(processed, kept)) ==
      if s + p in processed then RunState(processed, kept) else RunState(processed + {s + p}, kept + [s + p])
  {
  }

  /** A "yes" verdict for position p marks s + p processed. */
  lemma DropStep(p: nat, s: nat, processed: set<nat>, kept: seq<nat>)
    ensures ApplyVerdict(Drop(p), s, RunState(processed, kept)) == RunState(processed + {s + p}, kept)
  {
  }

  /** The records of one window, in order; a raising record ends the loop in the fallback. */
  method JudgeWindow<T>(items: seq<T>, s: nat, e: nat, js: seq<Json>, processed: set<nat>, out: seq<T>, kept: seq<nat>)
    returns (processed': set<nat>, out': seq<T>, kept': seq<nat>)
    requires s <= e <= |items|
    requires out == ItemsAt(items, kept)
    ensures RunState(processed', kept') == ApplyJudgments(js, s, e, RunState(processed, kept))
    ensures out' == ItemsAt(items, kept')
  {
    processed', out', kept' := processed, out, kept;
    for j := 0 to |js|
      invariant ApplyJudgments(js[j..], s, e, RunState(processed', kept')) == ApplyJudgments(js, s, e, RunState(processed, kept))
      invariant out' == ItemsAt(items, kept')
    {
      var v := WindowVerdict(js[j], e - s);
      ApplyJudgmentsStep(js, j, s, e, RunState(processed', kept'));
      match v
      case Raises =>
        processed', out', kept' := KeepUndecided(items, s, e, processed', out', kept');
        return;
      case Keep(p) =>
        KeepStep(p, s, processed', kept');
        if s + p !in processed' {
          ItemsAtSnoc(items, kept', s + p);
          out' := out' + [items[s + p]];
          kept' := kept' + [s + p];
          processed' := processed' + {s + p};
        }
      case Drop(p) =>
        DropStep(p, s, processed', kept');
        processed' := processed' + {s + p};
      case Ignored =>
    }
    assert js[|js|..] == [];
  }

  /** One window [s, e): the classifier call, the parse, and the records or the fallback. */
  method ProcessWindow<T>(items: seq<T>, s: nat, e: nat, reply: Reply, loads: Loads, processed: set<nat>, out: seq<T>, kept: seq<nat>)
    returns (processed': set<nat>, out': seq<T>, kept': seq<nat>)
    requires s <= e <= |items|
    requires out == ItemsAt(items, kept)
    ensures RunState(processed', kept') == StepWindow(s, e, reply, loads, RunState(processed, kept))
    ensures out' == ItemsAt(items, kept')
  {
    if reply.CallFailed? {
      processed', out', kept' := KeepUndecided(items, s, e, processed, out, kept);
      return;
    }
    var marked := ResponseParser.ParseBatchResponse(reply.text, loads);
    if marked.None? || marked.value.JNull? {
      processed', out', kept' := KeepUndecided(items, s, e, processed, out, kept);
      return;
    }
    var elements := Elements(marked.value);
    if elements.None? {
      processed', out', kept' := KeepUndecided(items, s, e, processed, out, kept);
      return;
    }
    processed', out', kept' := JudgeWindow(items, s, e, elements.value, processed, out, kept);
  }

  /** `process_overlapping_batches`, with the k-th classifier call answered by replies(k). */
  method ProcessOverlappingBatches<T>(items: seq<T>, replies: Replies, loads: Loads) returns (result: seq<T>)
    ensures result == OverlappingResult(items, replies, loads)
  {
    var processed: set<nat> := {};
    var out: seq<T> := [];
    var kept: seq<nat> := [];
    var w := 0;
    var batchStart := 0;
    while batchStart < |items|
      invariant batchStart == WindowStart(w)
      invariant out == ItemsAt(items, kept)
      invariant RunFrom(w, |items|, replies, loads, RunState(processed, kept)) == RunFrom(0, |items|, replies, loads, Start)
      decreases |items| - batchStart
    {
      var batchEnd := Min(batchStart + BatchSize, |items|);
      assert batchEnd == WindowEnd(w, |items|);
      ghost var cur := RunState(processed, kept);
      assert RunFrom(w, |items|, replies, loads, cur) == RunFrom(w + 1, |items|, replies, loads, StepWindow(batchStart, batchEnd, replies(w), loads, cur));
      processed, out, kept := ProcessWindow(items, batchStart, batchEnd, replies(w), loads, processed, out, kept);
      w := w + 1;
      batchStart := batchStart + Stride;
    }
    return out;
  }
}
