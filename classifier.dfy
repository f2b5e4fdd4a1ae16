/**
 * The relevance classifier (`add_classifications`, `drop_irrelevant`): each
 * item is annotated in place with the label and category the classifier
 * returns for it, and the pipeline then keeps the items labelled "relevant".
 */
module Classifier {
  import opened Wrappers
  import opened PyJson
  import opened News
  import Str = Text

  /** What one classifier result contributes to its item. */
  datatype Annotation = Annotation(classLabel: string, category: Json)

  /**
   * The annotation read from the parsed classifier result for one item, or
   * None when Python raises: the call or its parse failed, the result is not
   * a dict, or its "label" is not a str. A missing label reads "irrelevant";
   * the category is kept only for the label "relevant".
   */
  function ReadResult(result: Option<Json>): (r: Option<Annotation>)
    ensures r.Some? <==>
              && result.Some? && result.value.JObject?
              && ("label" in result.value.fields ==> result.value.fields["label"].JStr?)
    ensures r.Some? ==> Str.Lower(r.value.classLabel) == r.value.classLabel
    ensures r.Some? && r.value.classLabel != "relevant" ==> r.value.category == JStr("")
    ensures r.Some? && "label" !in result.value.fields ==> r.value == Annotation("irrelevant", JStr(""))
    ensures r.Some? && "label" in result.value.fields ==> r.value.classLabel == Str.Lower(result.value.fields["label"].s)
    ensures r.Some? && r.value.classLabel == "relevant" ==>
              r.value.category == if "category" in result.value.fields then result.value.fields["category"] else JStr("")
  {
    match result
    case Some(JObject(m)) =>
      var raw := if "label" in m then m["label"] else JStr("irrelevant");
      (match raw
       case JStr(s) =>
         var classLabel := Str.Lower(s);
         Str.LowerIdempotent(s);
         assert Str.Lower("irrelevant") == "irrelevant";
         var category := if classLabel == "relevant" then (if "category" in m then m["category"] else JStr("")) else JStr("");
         Some(Annotation(classLabel, category))
       case _ => None)
    case _ => None
  }

  /** `item["class"] = label; item["category"] = category`. */
  function Annotate(item: NewsItem, a: Annotation): NewsItem {
    item.(cls := Some(a.classLabel), category := Some(a.category))
  }

  /** The index of the first item whose classification raises, or n when none of the first n does. */
  function FirstFailure(results: nat -> Option<Json>, n: nat, from: nat): (r: nat)
    requires from <= n
    ensures from <= r <= n
    ensures forall j :: from <= j < r ==> ReadResult(results(j)).Some?
    ensures r < n ==> ReadResult(results(r)).None?
    decreases n - from
  {
    if from == n || ReadResult(results(from)).None? then from else FirstFailure(results, n, from + 1)
  }

  /**
   * `add_classifications`, the k-th call answering item k with results(k).
   * Items are annotated in order; when a classification raises, the items
   * before it keep their new annotation, the rest are untouched, and ok is
   * false (the exception escapes to the caller).
   */
  method AddClassifications(items: array<NewsItem>, results: nat -> Option<Json>) returns (ok: bool)
    modifies items
    ensures ok <==> FirstFailure(results, items.Length, 0) == items.Length
    ensures forall j :: 0 <= j < items.Length ==>
      items[j] == if j < FirstFailure(results, items.Length, 0) then Annotate(old(items[j]), ReadResult(results(j)).value) else old(items[j])
  {
    var k := 0;
    while k < items.Length
      invariant k <= items.Length
      invariant FirstFailure(results, items.Length, k) == FirstFailure(results, items.Length, 0)
      invariant forall j :: 0 <= j < k ==> ReadResult(results(j)).Some? && items[j] == Annotate(old(items[j]), ReadResult(results(j)).value)
      invariant forall j :: k <= j < items.Length ==> items[j] == old(items[j])
    {
      var annotation := ReadResult(results(k));
      if annotation.None? {
        return false;
      }
      items[k] := Annotate(items[k], annotation.value);
      k := k + 1;
    }
    return true;
  }

  /** `item.get("class", "").lower() == "relevant"`. */
  predicate IsRelevant(item: NewsItem) {
    Str.Lower(item.cls.GetOr("")) == "relevant"
  }

  /**
   * An annotated item passes the relevance filter exactly when the result
   * carried a "label" that lower-cases to "relevant", whatever its case.
   */
  lemma AnnotatedRelevantIff(item: NewsItem, result: Option<Json>)
    requires ReadResult(result).Some?
    ensures IsRelevant(Annotate(item, ReadResult(result).value)) <==>
              "label" in result.value.fields && Str.Lower(result.value.fields["label"].s) == "relevant"
  {
    var a := ReadResult(result).value;
    Str.LowerIdempotent(a.classLabel);
    assert Str.Lower("irrelevant") != "relevant";
  }

  /**
   * A result labelled "RELEVANT" or "Relevant" is stored as "relevant" with
   * the result's category, and its item passes the filter.
   */
  lemma CapitalisedLabelKept(item: NewsItem, category: Json)
    ensures var m := map["label" := JStr("RELEVANT"), "category" := category];
      && ReadResult(Some(JObject(m))) == Some(Annotation("relevant", category))
      && IsRelevant(Annotate(item, Annotation("relevant", category)))
    ensures var m := map["label" := JStr("Relevant"), "category" := category];
      ReadResult(Some(JObject(m))) == Some(Annotation("relevant", category))
  {
    assert Str.Lower("RELEVANT") == "relevant";
    assert Str.Lower("Relevant") == "relevant";
    assert Str.Lower("relevant") == "relevant";
  }

  /** `drop_irrelevant`: the relevant items, in order. */
  function DropIrrelevant(items: seq<NewsItem>): (r: seq<NewsItem>)
    ensures |r| <= |items|
    ensures forall x :: x in r ==> x in items && IsRelevant(x)
  {
    if items == [] then []
    else DropIrrelevant(items[..|items| - 1]) + (if IsRelevant(items[|items| - 1]) then [items[|items| - 1]] else [])
  }

  /** Every relevant item survives the filter. */
  lemma {:induction false} RelevantSurvives(items: seq<NewsItem>, x: NewsItem)
    requires x in items && IsRelevant(x)
    ensures x in DropIrrelevant(items)
  {
    var init := items[..|items| - 1];
    if x != items[|items| - 1] {
      assert items == init + [items[|items| - 1]];
      RelevantSurvives(init, x);
    }
  }

  /** Filtering a concatenation filters each part. */
  lemma {:induction false} DropIrrelevantAppend(a: seq<NewsItem>, b: seq<NewsItem>)
    ensures DropIrrelevant(a + b) == DropIrrelevant(a) + DropIrrelevant(b)
    decreases |b|
  {
    if b != [] {
      var init := b[..|b| - 1];
      assert (a + b)[..|a + b| - 1] == a + init;
      DropIrrelevantAppend(a, init);
    } else {
      assert a + b == a;
    }
  }

  /** Filtering twice is filtering once. */
  lemma {:induction false} DropIrrelevantIdempotent(items: seq<NewsItem>)
    ensures DropIrrelevant(DropIrrelevant(items)) == DropIrrelevant(items)
  {
    if items != [] {
      var init := items[..|items| - 1];
      var last := items[|items| - 1];
      DropIrrelevantIdempotent(init);
      var tail := if IsRelevant(last) then [last] else [];
      DropIrrelevantAppend(DropIrrelevant(init), tail);
      assert DropIrrelevant(tail) == tail by {
        if tail != [] {
          assert tail[..0] == [];
        }
      }
    }
  }
}
