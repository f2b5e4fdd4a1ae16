/**
 * `deduplicate_by_summary`: the entry point of the semantic deduplicator. It
 * chooses between the single-batch and the overlapping-batches path by the
 * length of the list, and fails open: whatever the classifier does, every
 * item it returns is one of the input items.
 */
module Deduplicator {
  import opened Wrappers
  import opened PyJson
  import opened Judgments
  import opened Windows
  import ResponseParser
  import Str = Text
  import SingleBatch
  import OverlappingBatches

  /** What `deduplicate_by_summary` returns; the k-th classifier call gets replies(k). */
  function DedupResult<T>(items: seq<T>, replies: Replies, loads: Loads): (r: seq<T>)
    ensures |items| <= 1 ==> r == items
    ensures forall x :: x in r ==> x in items
    ensures |items| > SingleBatchLimit ==> |r| <= |items|
  {
    if |items| <= 1 then items
    else if |items| <= SingleBatchLimit then SingleBatch.SingleBatchResult(items, replies(0), loads)
    else
      var idx := OverlappingBatches.KeptIndices(|items|, replies, loads);
      OverlappingBatches.NoItemTwice(|items|, replies, loads);
      OverlappingBatches.ItemsAtInRange(items, idx);
      OverlappingBatches.ItemsAt(items, idx)
  }

  /** `deduplicate_by_summary`, with the classifier's replies given as an oracle. */
  method DeduplicateBySummary<T>(items: seq<T>, replies: Replies, loads: Loads) returns (r: seq<T>)
    ensures r == DedupResult(items, replies, loads)
  {
    if |items| <= 1 {
      return items;
    }
    if |items| <= SingleBatchLimit {
      r := SingleBatch.ProcessSingleBatch(items, replies(0), loads);
    } else {
      r := OverlappingBatches.ProcessOverlappingBatches(items, replies, loads);
    }
  }

  /**
   * Lists of at most one item never reach the classifier, and lists of up to
   * 25 items use one call: the result depends on no reply, respectively on
   * the first reply only.
   */
  lemma CallsMade<T>(items: seq<T>, r1: Replies, r2: Replies, loads: Loads)
    requires |items| <= 1 || (|items| <= SingleBatchLimit && r1(0) == r2(0))
    ensures DedupResult(items, r1, loads) == DedupResult(items, r2, loads)
  {
  }

  /** When every classifier call fails, the list comes back unchanged, whichever path it takes. */
  lemma FailOpen<T>(items: seq<T>, replies: Replies, loads: Loads)
    requires forall k :: replies(k) == CallFailed
    ensures DedupResult(items, replies, loads) == items
  {
    if |items| > SingleBatchLimit {
      OverlappingBatches.FailedCallsKeepAll(items, replies, loads);
    }
  }

  /** A judgment record `{"id": id, "duplicate": flag}`. */
  function Record(id: int, flag: string): Json {
    JObject(map["id" := JInt(id), "duplicate" := JStr(flag)])
  }

  /** How the single-batch path reads the records `Record(id, "no")` and `Record(id, "yes")`. */
  lemma RecordVerdicts(id: nat, n: nat)
    requires id < n
    ensures SingleVerdict(Record(id, "no"), n) == Keep(id)
    ensures SingleVerdict(Record(id, "yes"), n) == Drop(id)
  {
    assert Str.Lower("no") == "no";
    assert Str.Lower("yes") == "yes";
    assert IdOf(Record(id, "no").fields) == IntId(id);
    assert IdOf(Record(id, "yes").fields) == IntId(id);
  }

  /** A reply whose stripped text parses to a list is judged record by record. */
  lemma WholeReplyParsed(raw: string, loads: Loads, js: seq<Json>)
    requires loads(Str.Strip(raw)) == Some(JList(js))
    ensures ResponseParser.ParseBatchResult(raw, loads) == Some(JList(js))
  {
  }

  /**
   * A short list whose reply marks the middle of three items as a duplicate
   * of an earlier one loses exactly that item, the others keeping their order.
   */
  lemma DropsMarkedDuplicate<T>(a: T, b: T, c: T, replies: Replies, raw: string, loads: Loads)
    requires replies(0) == Text(raw)
    requires loads(Str.Strip(raw)) == Some(JList([Record(0, "no"), Record(1, "yes"), Record(2, "no")]))
    ensures DedupResult([a, b, c], replies, loads) == [a, c]
  {
    var items := [a, b, c];
    var js := [Record(0, "no"), Record(1, "yes"), Record(2, "no")];
    WholeReplyParsed(raw, loads, js);
    SingleBatch.ParsedList(items, raw, loads, js);
    MiddleDropped(a, b, c);
  }

  /** The records of DropsMarkedDuplicate, judged against its three items. */
  lemma MiddleDropped<T>(a: T, b: T, c: T)
    ensures var js := [Record(0, "no"), Record(1, "yes"), Record(2, "no")];
      && !SingleBatch.SomeRecordRaises(js, 3)
      && SingleBatch.KeptItems([a, b, c], js) == [a, c]
  {
    var items := [a, b, c];
    var js := [Record(0, "no"), Record(1, "yes"), Record(2, "no")];
    RecordVerdicts(0, 3);
    RecordVerdicts(1, 3);
    RecordVerdicts(2, 3);
    assert js[..0] == [] && js[..3] == js;
    SingleBatch.KeptItemsStep(items, js, 0);
    SingleBatch.KeptItemsStep(items, js, 1);
    SingleBatch.KeptItemsStep(items, js, 2);
  }

  /**
   * On the single-batch path a reply that repeats an id returns that item
   * once per record: the output can be longer than the input.
   */
  lemma RepeatedIdRepeatsItem<T>(a: T, b: T, replies: Replies, raw: string, loads: Loads)
    requires replies(0) == Text(raw)
    requires loads(Str.Strip(raw)) == Some(JList([Record(0, "no"), Record(0, "no"), Record(1, "no")]))
    ensures DedupResult([a, b], replies, loads) == [a, a, b]
  {
    var items := [a, b];
    var js := [Record(0, "no"), Record(0, "no"), Record(1, "no")];
    WholeReplyParsed(raw, loads, js);
    SingleBatch.ParsedList(items, raw, loads, js);
    FirstRepeated(a, b);
  }

  /** The records of RepeatedIdRepeatsItem, judged against its two items. */
  lemma FirstRepeated<T>(a: T, b: T)
    ensures var js := [Record(0, "no"), Record(0, "no"), Record(1, "no")];
      && !SingleBatch.SomeRecordRaises(js, 2)
      && SingleBatch.KeptItems([a, b], js) == [a, a, b]
  {
    var items := [a, b];
    var js := [Record(0, "no"), Record(0, "no"), Record(1, "no")];
    RecordVerdicts(0, 2);
    RecordVerdicts(1, 2);
    assert js[..0] == [] && js[..3] == js;
    SingleBatch.KeptItemsStep(items, js, 0);
    SingleBatch.KeptItemsStep(items, js, 1);
    SingleBatch.KeptItemsStep(items, js, 2);
  }
}
