/**
 * The single-batch path of the deduplicator (`process_single_batch`): one
 * classifier call for the whole list, and a fail-open fallback that returns
 * the input unchanged on any failure.
 */
module SingleBatch {
  import opened Wrappers
  import opened PyJson
  import opened Judgments
  import ResponseParser

  /** items[pos] for each record that keeps an item, in record order. */
  function KeptItems<T>(items: seq<T>, js: seq<Json>): (r: seq<T>)
    ensures |r| <= |js|
    ensures forall x :: x in r ==> x in items
  {
    if js == [] then []
    else
      var rest := KeptItems(items, js[..|js| - 1]);
      match SingleVerdict(js[|js| - 1], |items|)
      case Keep(p) => rest + [items[p]]
      case _ => rest
  }

  /** Some record of js raises when judged against a batch of n items. */
  predicate SomeRecordRaises(js: seq<Json>, n: nat) {
    exists k :: 0 <= k < |js| && SingleVerdict(js[k], n).Raises?
  }

  /** What `process_single_batch` returns for the classifier reply `reply`. */
  function SingleBatchResult<T>(items: seq<T>, reply: Reply, loads: Loads): (r: seq<T>)
    ensures forall x :: x in r ==> x in items
  {
    match reply
    case CallFailed => items
    case Text(raw) =>
      match ResponseParser.ParseBatchResult(raw, loads)
      case None => items
      case Some(parsed) =>
        if parsed.JNull? then items
        else
          match Elements(parsed)
          case None => items
          case Some(js) => if SomeRecordRaises(js, |items|) then items else KeptItems(items, js)
  }

  /** `process_single_batch`, with the classifier call's outcome given as `reply`. */
  method ProcessSingleBatch<T>(items: seq<T>, reply: Reply, loads: Loads) returns (kept: seq<T>)
    ensures kept == SingleBatchResult(items, reply, loads)
  {
    if reply.CallFailed? {
      return items;
    }
    var marked := ResponseParser.ParseBatchResponse(reply.text, loads);
    if marked.None? || marked.value.JNull? {
      return items;
    }
    var elements := Elements(marked.value);
    if elements.None? {
      return items;
    }
    var js := elements.value;
    var raised, deduplicated := JudgeRecords(items, js);
    kept := if raised then items else deduplicated;
  }

  /**
   * The record loop of `process_single_batch`: whether some record raises,
   * and otherwise the items the records keep.
   */
  method JudgeRecords<T>(items: seq<T>, js: seq<Json>) returns (raised: bool, kept: seq<T>)
    ensures raised == SomeRecordRaises(js, |items|)
    ensures !raised ==> kept == KeptItems(items, js)
  {
    kept := [];
    for k := 0 to |js|
      invariant kept == KeptItems(items, js[..k])
      invariant forall i :: 0 <= i < k ==> !SingleVerdict(js[i], |items|).Raises?
    {
      var v := SingleVerdict(js[k], |items|);
      KeptItemsStep(items, js, k);
      if v.Raises? {
        return true, kept;
      }
      if v.Keep? {
        kept := kept + [items[v.pos]];
      }
    }
    assert js[..|js|] == js;
    raised := false;
  }

  /** One more record adds the item it keeps, if any. */
  lemma KeptItemsStep<T>(items: seq<T>, js: seq<Json>, k: nat)
    requires k < |js|
    ensures KeptItems(items, js[..k + 1]) ==
      KeptItems(items, js[..k]) + if SingleVerdict(js[k], |items|).Keep? then [items[SingleVerdict(js[k], |items|).pos]] else []
  {
    assert js[..k + 1][..k] == js[..k];
  }

  /** A failed call or an unparsable reply leaves the batch unchanged. */
  lemma FailOpen<T>(items: seq<T>, reply: Reply, loads: Loads)
    requires reply.CallFailed? || ResponseParser.ParseBatchResult(reply.text, loads).None?
    ensures SingleBatchResult(items, reply, loads) == items
  {
  }

  /**
   * A "yes" record whose id is missing or null makes the log line compare
   * None with an int; the `TypeError` is caught and the whole batch is kept.
   */
  lemma NullIdDuplicateKeepsAll<T>(items: seq<T>, raw: string, loads: Loads, js: seq<Json>, k: nat)
    requires ResponseParser.ParseBatchResult(raw, loads) == Some(JList(js))
    requires k < |js| && Flagged(js[k], true) && IdOf(js[k].fields).NoId?
    ensures SingleBatchResult(items, Text(raw), loads) == items
  {
    assert SingleVerdict(js[k], |items|).Raises?;
    ParsedList(items, raw, loads, js);
  }

  /** A reply that parses to a list is judged record by record. */
  lemma ParsedList<T>(items: seq<T>, raw: string, loads: Loads, js: seq<Json>)
    requires ResponseParser.ParseBatchResult(raw, loads) == Some(JList(js))
    ensures SingleBatchResult(items, Text(raw), loads) == if SomeRecordRaises(js, |items|) then items else KeptItems(items, js)
  {
    var parsed := ResponseParser.ParseBatchResult(raw, loads);
    assert parsed.Some? && !parsed.value.JNull?;
    assert Elements(parsed.value) == Some(js);
  }

  /**
   * When no record raises, the i-th kept item is items[pos] for the i-th
   * record, in record order, that reads "no" with an id in [-n, n); other
   * records add nothing.
   */
  lemma {:induction false} KeptItemsAreNoRecords<T>(items: seq<T>, js: seq<Json>)
    ensures |KeptItems(items, js)| == |KeepRecords(js, |items|)|
    ensures forall i :: 0 <= i < |KeptItems(items, js)| ==>
      KeptItems(items, js)[i] == items[PyPos(IdOf(js[KeepRecords(js, |items|)[i]].fields).v, |items|)]
  {
    if js != [] {
      var init := js[..|js| - 1];
      KeptItemsAreNoRecords(items, init);
    }
  }

  /** The positions, in order, of the records of js that keep an item. */
  function KeepRecords(js: seq<Json>, n: nat): (r: seq<nat>)
    ensures forall i :: 0 <= i < |r| ==> r[i] < |js| && SingleVerdict(js[r[i]], n).Keep?
    ensures forall i, j :: 0 <= i < j < |r| ==> r[i] < r[j]
    ensures forall k :: 0 <= k < |js| && SingleVerdict(js[k], n).Keep? ==> k in r
  {
    if js == [] then []
    else
      var init := js[..|js| - 1];
      var rest := KeepRecords(init, n);
      assert forall k :: 0 <= k < |init| ==> init[k] == js[k];
      if SingleVerdict(js[|js| - 1], n).Keep? then rest + [|js| - 1] else rest
  }
}
