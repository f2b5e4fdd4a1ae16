/**
 * The response parser of the deduplicator (`parse_batch_response`): four
 * extraction strategies tried in order on the stripped reply, the first one
 * that yields a value wins, and None is the "unparsable" sentinel.
 */
module ResponseParser {
  import opened Wrappers
  import opened Text
  import opened PyJson

  const Fence: string := "```"
  const JsonFence: string := "```json"

  /** Strategies 1 and 2 accept a list as is, and a dict holding "articles" as that value. */
  function Accept(parsed: Option<Json>): (r: Option<Json>)
    ensures r.Some? <==> parsed.Some? && (parsed.value.JList? || (parsed.value.JObject? && "articles" in parsed.value.fields))
  {
    match parsed
    case Some(JList(es)) => Some(JList(es))
    case Some(JObject(m)) => if "articles" in m then Some(m["articles"]) else None
    case _ => None
  }

  /** Strategy 1: the whole stripped text. */
  function WholeText(t: string, loads: Loads): Option<Json> {
    Accept(loads(t))
  }

  /**
   * The text strategy 2 hands to the parser: the stripped interior of the
   * first fenced block, skipping a `json` tag right after the opening fence;
   * None when there is no fence or no closing fence after a non-empty interior.
   */
  function FencedInterior(t: string): Option<string> {
    var start := Find(t, Fence, 0);
    if start < 0 then None
    else
      var from := if t[start..Min(start + |JsonFence|, |t|)] == JsonFence then start + |JsonFence| else start + |Fence|;
      var end := Find(t, Fence, from);
      if end > from then Some(Strip(t[from..end])) else None
  }

  /** Strategy 2: the fenced block. */
  function FencedBlock(t: string, loads: Loads): Option<Json> {
    match FencedInterior(t)
    case None => None
    case Some(b) => Accept(loads(b))
  }

  /** Strategy 3: from the first `[` to the last `]`, accepted only as a list. */
  function BracketSpan(t: string, loads: Loads): (r: Option<Json>)
    ensures r.Some? ==> r.value.JList?
  {
    var start := Find(t, "[", 0);
    var end := RFind(t, "]") + 1;
    if start >= 0 && end > start then
      match loads(t[start..end])
      case Some(JList(es)) => Some(JList(es))
      case _ => None
    else None
  }

  /** How a character moves the brace nesting depth. */
  function Delta(c: char): int {
    if c == '{' then 1 else if c == '}' then -1 else 0
  }

  /** The nesting depth at the end of `s`: opening minus closing braces. */
  function Depth(s: string): int {
    if s == [] then 0 else Depth(s[..|s| - 1]) + Delta(s[|s| - 1])
  }

  lemma DepthSnoc(s: string, i: nat, j: nat)
    requires i <= j < |s|
    ensures Depth(s[i..j + 1]) == Depth(s[i..j]) + Delta(s[j])
  {
    assert s[i..j + 1][..j - i] == s[i..j];
  }

  /** The first end after position i at which s[start..end] is balanced. */
  function BalancedFrom(s: string, start: nat, i: nat): (r: Option<nat>)
    requires start < i <= |s|
    requires forall k :: start < k <= i ==> Depth(s[start..k]) > 0
    ensures r.Some? ==> i < r.value <= |s| && Depth(s[start..r.value]) == 0
    ensures forall k :: start < k <= |s| && (r.None? || k < r.value) ==> Depth(s[start..k]) > 0
    decreases |s| - i
  {
    if i == |s| then None
    else
      DepthSnoc(s, start, i);
      if Depth(s[start..i + 1]) == 0 then Some(i + 1)
      else BalancedFrom(s, start, i + 1)
  }

  /**
   * The end of the brace-matched span that starts at the `{` at `start`: the
   * first position where the nesting depth returns to 0, or None when it
   * never does.
   */
  function MatchingBrace(s: string, start: nat): (r: Option<nat>)
    requires start < |s| && s[start] == '{'
    ensures r.Some? ==> start < r.value <= |s| && Depth(s[start..r.value]) == 0
    ensures forall k :: start < k <= |s| && (r.None? || k < r.value) ==> Depth(s[start..k]) > 0
  {
    DepthSnoc(s, start, start);
    BalancedFrom(s, start, start + 1)
  }

  /** Strategy 4: the brace-matched span from the first `{`, accepted only as a dict holding "articles". */
  function BraceSpan(t: string, loads: Loads): Option<Json> {
    var start := Find(t, "{", 0);
    if start < 0 then None
    else
      match MatchingBrace(t, start)
      case None => None
      case Some(end) =>
        match loads(t[start..end])
        case Some(JObject(m)) => if "articles" in m then Some(m["articles"]) else None
        case _ => None
  }

  /** What `parse_batch_response` returns: the first strategy that yields a value. */
  function ParseBatchResult(raw: string, loads: Loads): Option<Json> {
    var t := Strip(raw);
    var whole := WholeText(t, loads);
    if whole.Some? then whole
    else
      var fenced := FencedBlock(t, loads);
      if fenced.Some? then fenced
      else
        var bracket := BracketSpan(t, loads);
        if bracket.Some? then bracket
        else BraceSpan(t, loads)
  }

  /** The brace-depth scan of strategy 4: `start` itself when the depth never returns to 0. */
  method ScanBraces(s: string, start: nat) returns (end: nat)
    requires start < |s| && s[start] == '{'
    ensures MatchingBrace(s, start).Some? ==> end == MatchingBrace(s, start).value
    ensures MatchingBrace(s, start).None? ==> end == start
  {
    var braceCount := 0;
    end := start;
    var i := start;
    while i < |s|
      invariant start <= i <= |s|
      invariant braceCount == Depth(s[start..i])
      invariant forall k :: start < k <= i ==> Depth(s[start..k]) > 0
      decreases |s| - i
    {
      DepthSnoc(s, start, i);
      if s[i] == '{' {
        braceCount := braceCount + 1;
      } else if s[i] == '}' {
        braceCount := braceCount - 1;
        if braceCount == 0 {
          end := i + 1;
          return;
        }
      }
      i := i + 1;
    }
  }

  /** `parse_batch_response`. */
  method ParseBatchResponse(raw: string, loads: Loads) returns (r: Option<Json>)
    ensures r == ParseBatchResult(raw, loads)
  {
    var t := Strip(raw);
    r := WholeText(t, loads);
    if r.Some? { return; }
    r := FencedBlock(t, loads);
    if r.Some? { return; }
    r := BracketSpan(t, loads);
    if r.Some? { return; }
    r := None;
    var start := Find(t, "{", 0);
    if start >= 0 {
      var end := ScanBraces(t, start);
      if end > start {
        match loads(t[start..end])
        case Some(JObject(m)) =>
          if "articles" in m {
            r := Some(m["articles"]);
          }
        case _ =>
      }
    }
  }

  /** The sentinel comes back only after all four strategies have failed. */
  lemma UnparsableOnlyWhenAllFail(raw: string, loads: Loads)
    ensures ParseBatchResult(raw, loads).None? <==>
      WholeText(Strip(raw), loads).None? && FencedBlock(Strip(raw), loads).None?
      && BracketSpan(Strip(raw), loads).None? && BraceSpan(Strip(raw), loads).None?
  {
  }

  /** A whole reply that parses as a dict holding "articles" gives that key's value, whatever else the dict holds. */
  lemma ArticlesObject(raw: string, loads: Loads, m: map<string, Json>)
    requires loads(Strip(raw)) == Some(JObject(m)) && "articles" in m
    ensures ParseBatchResult(raw, loads) == Some(m["articles"])
  {
  }

  /** Find stops at the first occurrence. */
  lemma FindAt(s: string, sub: string, from: nat, k: nat)
    requires from <= k && OccursAt(s, sub, k)
    requires forall i :: from <= i < k ==> !OccursAt(s, sub, i)
    ensures Find(s, sub, from) == k
  {
    FindIsFirst(s, sub, from, k);
  }

  lemma OccursAtHead(s: string, sub: string, i: int)
    requires OccursAt(s, sub, i) && |sub| > 0
    ensures s[i] == sub[0]
  {
    assert s[i..i + |sub|][0] == s[i];
  }

  /** The first fence at or after `from`, when no backquote comes before it. */
  lemma FindFenceAt(t: string, from: nat, k: nat)
    requires from <= k && k + |Fence| <= |t| && t[k..k + |Fence|] == Fence
    requires '`' !in t[from..k]
    ensures Find(t, Fence, from) == k
  {
    forall i | from <= i < k ensures t[i] != '`' {
      assert t[i] == t[from..k][i - from];
    }
    forall i | from <= i < k ensures !OccursAt(t, Fence, i) {
      if OccursAt(t, Fence, i) { OccursAtHead(t, Fence, i); }
    }
    FindAt(t, Fence, from, k);
  }

  /** Where the parts of `p + open + b + Fence + q` lie. */
  lemma FencedLayout(p: string, open: string, b: string, q: string)
    ensures var t := p + open + b + Fence + q;
      && |t| == |p| + |open| + |b| + |Fence| + |q|
      && t[0..|p|] == p
      && t[|p|..|p| + |open|] == open
      && t[|p| + |open|..|p| + |open| + |b|] == b
      && t[|p| + |open| + |b|..|p| + |open| + |b| + |Fence|] == Fence
  {
    var t := p + open + b + Fence + q;
    assert t == p + (open + (b + (Fence + q)));
  }

  /** Strategy 2 reads the stripped text between the fences Find reports. */
  lemma ReadFence(t: string, start: nat, from: nat, end: nat)
    requires start < from < end <= |t|
    requires Find(t, Fence, 0) == start
    requires from == if t[start..Min(start + |JsonFence|, |t|)] == JsonFence then start + |JsonFence| else start + |Fence|
    requires Find(t, Fence, from) == end
    ensures FencedInterior(t) == Some(Strip(t[from..end]))
  {
  }

  /**
   * A reply that does not parse whole but holds one fenced block tagged
   * `json` (no backquote before it or inside it) is read from that block's
   * stripped interior.
   */
  lemma {:induction false} FencedJsonBlock(p: string, b: string, q: string)
    requires '`' !in p && '`' !in b
    requires |b| > 0
    ensures FencedInterior(p + JsonFence + b + Fence + q) == Some(Strip(b))
  {
    var t := p + JsonFence + b + Fence + q;
    var start := |p|;
    var from := start + |JsonFence|;
    var end := from + |b|;
    FencedLayout(p, JsonFence, b, q);
    assert t[start..start + |Fence|] == t[start..from][..|Fence|];
    FindFenceAt(t, 0, start);
    assert Min(start + |JsonFence|, |t|) == from;
    FindFenceAt(t, from, end);
    ReadFence(t, start, from, end);
    assert t[from..end] == b;
    assert FencedInterior(t) == Some(Strip(b));
  }

  /**
   * A reply that does not parse whole but holds one fenced block without a
   * tag (no backquote before it or inside it, and an interior that does not
   * start with "json") is read from that block's stripped interior.
   */
  lemma {:induction false} FencedBareBlock(p: string, b: string, q: string)
    requires '`' !in p && '`' !in b
    requires |b| > 0 && !(|b| >= 4 && b[..4] == "json")
    ensures FencedInterior(p + Fence + b + Fence + q) == Some(Strip(b))
  {
    var t := p + Fence + b + Fence + q;
    var start := |p|;
    var from := start + |Fence|;
    var end := from + |b|;
    FencedLayout(p, Fence, b, q);
    FindFenceAt(t, 0, start);
    assert t[end..end + |Fence|][0] == t[end];
    NoTagAfterFence(t, start, b);
    FindFenceAt(t, from, end);
    ReadFence(t, start, from, end);
    assert t[from..end] == b;
    assert FencedInterior(t) == Some(Strip(b));
  }

  /** An opening fence followed by an interior that does not start with "json" and a backquote carries no `json` tag. */
  lemma NoTagAfterFence(t: string, start: nat, b: string)
    requires start + |Fence| + |b| < |t| && t[start + |Fence|..start + |Fence| + |b|] == b
    requires t[start + |Fence| + |b|] == '`'
    requires !(|b| >= 4 && b[..4] == "json")
    ensures t[start..Min(start + |JsonFence|, |t|)] != JsonFence
  {
    var w := t[start..Min(start + |JsonFence|, |t|)];
    if |w| == |JsonFence| {
      if |b| >= 4 {
        assert t[start + 3..start + 7] == t[start + 3..start + 3 + |b|][..4];
        assert w[3..7] == t[start + 3..start + 7];
      } else {
        assert w[3 + |b|] == t[start + 3 + |b|] == '`';
      }
    }
  }

  /** A character's first occurrence, as `find` reports it. */
  lemma FindCharAt(t: string, c: char, k: nat)
    requires k < |t| && t[k] == c
    requires forall i :: 0 <= i < k ==> t[i] != c
    ensures Find(t, [c], 0) == k
  {
    assert t[k..k + 1] == [c];
    forall i | 0 <= i < k ensures !OccursAt(t, [c], i) {
      assert t[i..i + 1][0] == t[i];
    }
    FindAt(t, [c], 0, k);
  }

  /** A character's last occurrence, as `rfind` reports it. */
  lemma RFindCharAt(t: string, c: char, k: nat)
    requires k < |t| && t[k] == c
    requires forall i :: k < i < |t| ==> t[i] != c
    ensures RFind(t, [c]) == k
  {
    assert t[k..k + 1] == [c];
    RFindIsLast(t, [c], k);
    forall i | k < i && i + 1 <= |t| ensures !OccursAt(t, [c], i) {
      assert t[i..i + 1][0] == t[i];
    }
  }

  /** Text without a backquote has no fenced block. */
  lemma NoFence(t: string)
    requires '`' !in t
    ensures FencedInterior(t) == None
  {
    var start := Find(t, Fence, 0);
    if start >= 0 {
      OccursAtHead(t, Fence, start);
    }
  }

  /**
   * Strategy 3 on a text with no `[` before the span and no `]` after it:
   * the span from the first `[` to the last `]` is what is parsed.
   */
  lemma BracketSpanOfList(p: string, b: string, q: string, loads: Loads, es: seq<Json>)
    requires '[' !in p && ']' !in q
    requires loads("[" + b + "]") == Some(JList(es))
    ensures BracketSpan(p + "[" + b + "]" + q, loads) == Some(JList(es))
  {
    var t := p + "[" + b + "]" + q;
    var start := |p|;
    var last := |p| + |b| + 1;
    forall i | 0 <= i < start ensures t[i] != '[' {
      assert t[i] == p[i];
    }
    FindCharAt(t, '[', start);
    forall i | last < i < |t| ensures t[i] != ']' {
      assert t[i] == q[i - last - 1];
    }
    RFindCharAt(t, ']', last);
    assert t[start..last + 1] == "[" + b + "]";
  }

  /** Stripping a text that holds a non-space span keeps that span whole. */
  lemma StripKeepsSpan(raw: string, lo: nat, hi: nat) returns (x: nat, y: nat)
    requires lo < hi <= |raw| && !IsSpace(raw[lo]) && !IsSpace(raw[hi - 1])
    ensures x <= lo && hi <= y <= |raw| && Strip(raw) == raw[x..y]
  {
    StripDropsOnlySpaces(raw);
    x, y :| && 0 <= x <= y <= |raw| && Strip(raw) == raw[x..y]
             && (forall k :: 0 <= k < x ==> IsSpace(raw[k]))
             && (forall k :: y <= k < |raw| ==> IsSpace(raw[k]));
  }

  /** A slice splits at any point between its ends. */
  lemma SplitSlice(s: string, i: nat, j: nat, k: nat)
    requires i <= j <= k <= |s|
    ensures s[i..k] == s[i..j] + s[j..k]
  {
  }

  /** A slice of a concatenation, taken within one part, is a slice of that part. */
  lemma SliceOfConcat(a: string, b: string, i: nat, j: nat)
    requires i <= j <= |a| + |b|
    ensures j <= |a| ==> (a + b)[i..j] == a[i..j]
    ensures |a| <= i ==> (a + b)[i..j] == b[i - |a|..j - |a|]
  {
  }

  /**
   * Stripping a text with a span that starts and ends with non-whitespace
   * keeps the span whole: only the text around it can lose whitespace.
   */
  lemma StripAroundSpan(p: string, mid: string, q: string) returns (x: nat, m: nat)
    requires |mid| > 0 && !IsSpace(mid[0]) && !IsSpace(mid[|mid| - 1])
    ensures x <= |p| && m <= |q| && Strip(p + mid + q) == p[x..] + mid + q[..m]
  {
    var raw := p + mid + q;
    var hi := |p| + |mid|;
    assert raw[|p|] == mid[0] && raw[hi - 1] == mid[|mid| - 1];
    var y;
    x, y := StripKeepsSpan(raw, |p|, hi);
    m := y - hi;
    SliceOfConcat(p, mid + q, x, |p|);
    SliceOfConcat(p + mid, q, hi, y);
    SliceOfConcat(p, mid, |p|, hi);
    assert raw[x..|p|] == p[x..];
    assert raw[hi..y] == q[..m];
    assert raw[|p|..hi] == mid;
    SplitSlice(raw, x, |p|, y);
    SplitSlice(raw, |p|, hi, y);
  }

  /**
   * On a stripped text with one bracketed list and no backquote, strategies
   * 1 and 2 fail and strategy 3 yields the list.
   */
  lemma BracketListText(t: string, p: string, b: string, q: string, loads: Loads, es: seq<Json>)
    requires t == p + "[" + b + "]" + q
    requires '`' !in p && '`' !in b && '`' !in q && '[' !in p && ']' !in q
    requires loads(t) == None && loads("[" + b + "]") == Some(JList(es))
    ensures WholeText(t, loads) == None && FencedBlock(t, loads) == None
    ensures BracketSpan(t, loads) == Some(JList(es))
  {
    NoFence(t);
    BracketSpanOfList(p, b, q, loads, es);
  }

  /**
   * A reply that parses neither whole nor as a fenced block (it holds no
   * backquote) but holds a bracketed list, with no `[` before it and no `]`
   * after it, gives that list.
   */
  lemma {:induction false} BracketListReply(p: string, b: string, q: string, loads: Loads, es: seq<Json>)
    requires '`' !in p && '`' !in b && '`' !in q && '[' !in p && ']' !in q
    requires loads(Strip(p + "[" + b + "]" + q)) == None
    requires loads("[" + b + "]") == Some(JList(es))
    ensures ParseBatchResult(p + "[" + b + "]" + q, loads) == Some(JList(es))
  {
    var mid := "[" + b + "]";
    assert p + "[" + b + "]" + q == p + mid + q;
    var x, m := StripAroundSpan(p, mid, q);
    assert '`' !in p[x..] && '[' !in p[x..] by {
      assert forall c :: c in p[x..] ==> c in p;
    }
    assert '`' !in q[..m] && ']' !in q[..m] by {
      assert forall c :: c in q[..m] ==> c in q;
    }
    BracketListText(Strip(p + mid + q), p[x..], b, q[..m], loads, es);
  }
}
