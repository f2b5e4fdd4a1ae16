/**
 * How the deduplicator reads one judgment record of the classifier's reply,
 * with Python's own evaluation order: which records keep an item, which mark
 * it as a duplicate, which are passed over, and which raise.
 */
module Judgments {
  import opened Wrappers
  import opened PyJson
  import Text

  /**
   * A record's "id" as Python sees it: None (missing or null), an int (a bool
   * is the int 0 or 1), a float, or a value `<` cannot compare with an int.
   */
  datatype PyId = NoId | IntId(v: int) | FloatId(r: real) | BadId

  function IdOf(m: map<string, Json>): PyId {
    if "id" !in m then NoId
    else
      match m["id"]
      case JNull => NoId
      case JBool(b) => IntId(if b then 1 else 0)
      case JInt(v) => IntId(v)
      case JFloat(r) => FloatId(r)
      case _ => BadId
  }

  /** `id < n`; None when Python raises `TypeError`. */
  function LessThan(id: PyId, n: nat): Option<bool> {
    match id
    case IntId(v) => Some(v < n)
    case FloatId(r) => Some(r < n as real)
    case _ => None
  }

  /** The position Python's `xs[v]` reads in a list of length n, for -n <= v < n. */
  function PyPos(v: int, n: nat): nat
    requires -(n as int) <= v < n
  {
    if v >= 0 then v else n + v
  }

  /** `xs[id]` on a list of length n: the position read, or None on `IndexError`/`TypeError`. */
  function ListIndex(id: PyId, n: nat): (r: Option<nat>)
    ensures r.Some? <==> id.IntId? && -(n as int) <= id.v < n
    ensures r.Some? ==> r.value < n && r.value == PyPos(id.v, n)
  {
    match id
    case IntId(v) => if -(n as int) <= v < n then Some(PyPos(v, n)) else None
    case _ => None
  }

  /** `m.get("duplicate", "no").lower() == "yes"`; None when the value is not a str and `.lower()` raises. */
  function DuplicateFlag(m: map<string, Json>): (r: Option<bool>)
    ensures "duplicate" !in m ==> r == Some(false)
    ensures r.None? <==> "duplicate" in m && !m["duplicate"].JStr?
    ensures r == Some(true) ==> Text.Lower(m["duplicate"].s) == "yes"
    ensures "duplicate" in m && m["duplicate"].JStr? ==> (r == Some(true) <==> Text.Lower(m["duplicate"].s) == "yes")
  {
    if "duplicate" !in m then Some(false)
    else
      match m["duplicate"]
      case JStr(s) => Some(Text.Lower(s) == "yes")
      case _ => None
  }

  /** The flag is compared after lower-casing: "YES" and "Yes" mark a duplicate, "yes " and "y" do not. */
  lemma FlagIgnoresCase()
    ensures DuplicateFlag(map["duplicate" := JStr("YES")]) == Some(true)
    ensures DuplicateFlag(map["duplicate" := JStr("Yes")]) == Some(true)
    ensures DuplicateFlag(map["duplicate" := JStr("yes ")]) == Some(false)
    ensures DuplicateFlag(map["duplicate" := JStr("y")]) == Some(false)
  {
    assert Text.Lower("YES") == "yes";
    assert Text.Lower("Yes") == "yes";
    assert |Text.Lower("yes ")| == 4;
    assert |Text.Lower("y")| == 1;
  }

  /**
   * Whether the log line's `title[:k]` can be evaluated: the record's own
   * "title" when it has one (a str or a list slices, anything else raises),
   * otherwise the item's title, a str.
   */
  predicate TitleSliceable(m: map<string, Json>) {
    "title" !in m || m["title"].JStr? || m["title"].JList?
  }

  /** The outcome of one record for a batch of n items. */
  datatype Verdict =
    | Raises          // an exception escapes the record's handling
    | Ignored         // no effect
    | Keep(pos: nat)  // "not a duplicate" for the item at pos
    | Drop(pos: nat)  // "duplicate" for the item at pos

  /** A record whose duplicate flag reads "no": the shared rule of both paths. */
  function NotDuplicateVerdict(m: map<string, Json>, n: nat): (v: Verdict)
    ensures v.Keep? <==> IdOf(m).IntId? && -(n as int) <= IdOf(m).v < n
    ensures v.Keep? ==> v.pos == PyPos(IdOf(m).v, n)
    ensures v.Raises? <==> IdOf(m).BadId? || (IdOf(m).IntId? && IdOf(m).v < -(n as int)) || (IdOf(m).FloatId? && IdOf(m).r < n as real)
    ensures !v.Drop?
  {
    var id := IdOf(m);
    if id.NoId? then Ignored
    else
      match LessThan(id, n)
      case None => Raises
      case Some(below) =>
        if !below then Ignored
        else
          match ListIndex(id, n)
          case None => Raises
          case Some(p) => Keep(p)
  }

  /** Whether a record is a dict whose duplicate flag is the given value. */
  predicate Flagged(j: Json, dup: bool) {
    j.JObject? && DuplicateFlag(j.fields) == Some(dup)
  }

  /**
   * One record of the single-batch path. A "yes" record evaluates the
   * default argument of its log line's `get('title', ...)` first: that
   * compares the id with the batch size (a None id raises `TypeError`),
   * indexes the items when the id is below it, and then slices the title.
   */
  function SingleVerdict(j: Json, n: nat): (v: Verdict)
    ensures v.Keep? <==> Flagged(j, false) && IdOf(j.fields).IntId? && -(n as int) <= IdOf(j.fields).v < n
    ensures v.Keep? ==> v.pos == PyPos(IdOf(j.fields).v, n)
    ensures Flagged(j, true) && IdOf(j.fields).NoId? ==> v.Raises?
    ensures !j.JObject? ==> v.Raises?
    ensures v.Drop? <==> Flagged(j, true) && IdOf(j.fields).IntId? && -(n as int) <= IdOf(j.fields).v < n && TitleSliceable(j.fields)
    ensures v.Raises? <==>
      || !j.JObject?
      || DuplicateFlag(j.fields).None?
      || (Flagged(j, false) && NotDuplicateVerdict(j.fields, n).Raises?)
      || (Flagged(j, true) &&
            (|| LessThan(IdOf(j.fields), n).None?
             || (LessThan(IdOf(j.fields), n) == Some(true) && ListIndex(IdOf(j.fields), n).None?)
             || !TitleSliceable(j.fields)))
  {
    if !j.JObject? then Raises
    else
      var m := j.fields;
      match DuplicateFlag(m)
      case None => Raises
      case Some(dup) =>
        if !dup then NotDuplicateVerdict(m, n)
        else
          match LessThan(IdOf(m), n)
          case None => Raises
          case Some(below) =>
            if below && ListIndex(IdOf(m), n).None? then Raises
            else if !TitleSliceable(m) then Raises
            else if below then Drop(ListIndex(IdOf(m), n).value)
            else Ignored
  }

  /**
   * One record of a window of n items in the overlapping path. Here a None
   * id or an id not below n is passed over before anything else is
   * evaluated; a "yes" record indexes the window and slices its title
   * before its index is marked processed.
   */
  function WindowVerdict(j: Json, n: nat): (v: Verdict)
    ensures v.Keep? <==> Flagged(j, false) && IdOf(j.fields).IntId? && -(n as int) <= IdOf(j.fields).v < n
    ensures v.Drop? <==> Flagged(j, true) && IdOf(j.fields).IntId? && -(n as int) <= IdOf(j.fields).v < n && TitleSliceable(j.fields)
    ensures (v.Keep? || v.Drop?) ==> v.pos == PyPos(IdOf(j.fields).v, n) && v.pos < n
    ensures j.JObject? && DuplicateFlag(j.fields).Some? && IdOf(j.fields).NoId? ==> v.Ignored?
    ensures !j.JObject? ==> v.Raises?
    ensures v.Raises? <==>
      || !j.JObject?
      || DuplicateFlag(j.fields).None?
      || (!IdOf(j.fields).NoId? &&
            (|| LessThan(IdOf(j.fields), n).None?
             || (LessThan(IdOf(j.fields), n) == Some(true) &&
                   (ListIndex(IdOf(j.fields), n).None? || (Flagged(j, true) && !TitleSliceable(j.fields))))))
  {
    if !j.JObject? then Raises
    else
      var m := j.fields;
      match DuplicateFlag(m)
      case None => Raises
      case Some(dup) =>
        if !dup then NotDuplicateVerdict(m, n)
        else
          var id := IdOf(m);
          if id.NoId? then Ignored
          else
            match LessThan(id, n)
            case None => Raises
            case Some(below) =>
              if !below then Ignored
              else
                match ListIndex(id, n)
                case None => Raises
                case Some(p) => if TitleSliceable(m) then Drop(p) else Raises
  }
}
