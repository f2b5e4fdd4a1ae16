/**
 * The few Python `str` operations the core relies on: `strip`, `find`,
 * `rfind`, `lower` and `upper`.
 */
module Text {

  /** The characters for which Python's `str.isspace()` holds. */
  predicate IsSpace(c: char) {
    c == ' ' || ('\t' <= c <= '\r') || ('\U{1c}' <= c <= '\U{1f}')
    || c == '\U{85}' || c == '\U{a0}' || c == '\U{1680}'
    || ('\U{2000}' <= c <= '\U{200a}') || c == '\U{2028}' || c == '\U{2029}'
    || c == '\U{202f}' || c == '\U{205f}' || c == '\U{3000}'
  }

  /** The first position at or after `i` that does not hold whitespace (or |s|). */
  function SkipSpaces(s: string, i: nat): (r: nat)
    requires i <= |s|
    ensures i <= r <= |s| && (r < |s| ==> !IsSpace(s[r]))
    decreases |s| - i
  {
    if i < |s| && IsSpace(s[i]) then SkipSpaces(s, i + 1) else i
  }

  /** The end of `s[lo..j]` once its trailing whitespace is dropped. */
  function BackSpaces(s: string, lo: nat, j: nat): (r: nat)
    requires lo <= j <= |s|
    ensures lo <= r <= j && (r > lo ==> !IsSpace(s[r - 1]))
    decreases j
  {
    if j > lo && IsSpace(s[j - 1]) then BackSpaces(s, lo, j - 1) else j
  }

  /** Everything SkipSpaces passes over is whitespace. */
  lemma {:induction false} SkipSpacesOnlySpaces(s: string, i: nat, k: nat)
    requires i <= |s| && i <= k < SkipSpaces(s, i)
    ensures IsSpace(s[k])
    decreases |s| - i
  {
    if k > i {
      SkipSpacesOnlySpaces(s, i + 1, k);
    }
  }

  /** Everything BackSpaces drops is whitespace. */
  lemma {:induction false} BackSpacesOnlySpaces(s: string, lo: nat, j: nat, k: nat)
    requires lo <= j <= |s| && BackSpaces(s, lo, j) <= k < j
    ensures IsSpace(s[k])
    decreases j
  {
    if k < j - 1 {
      BackSpacesOnlySpaces(s, lo, j - 1, k);
    }
  }

  /** `s.strip()`: the slice left once leading and trailing whitespace is dropped. */
  function Strip(s: string): (r: string)
    ensures |r| <= |s|
    ensures r != [] ==> !IsSpace(r[0]) && !IsSpace(r[|r| - 1])
  {
    var a := SkipSpaces(s, 0);
    s[a..BackSpaces(s, a, |s|)]
  }

  /** What `strip` drops is whitespace only: the result is a slice of `s` with whitespace around it. */
  lemma StripDropsOnlySpaces(s: string)
    ensures exists a, b ::
              && 0 <= a <= b <= |s| && Strip(s) == s[a..b]
              && (forall k :: 0 <= k < a ==> IsSpace(s[k]))
              && (forall k :: b <= k < |s| ==> IsSpace(s[k]))
  {
    var a := SkipSpaces(s, 0);
    var b := BackSpaces(s, a, |s|);
    forall k | 0 <= k < a ensures IsSpace(s[k]) {
      SkipSpacesOnlySpaces(s, 0, k);
    }
    forall k | b <= k < |s| ensures IsSpace(s[k]) {
      BackSpacesOnlySpaces(s, a, |s|, k);
    }
    assert Strip(s) == s[a..b];
  }

  /** `sub` occurs in `s` starting at position `i`. */
  predicate OccursAt(s: string, sub: string, i: int) {
    0 <= i && i + |sub| <= |s| && s[i..i + |sub|] == sub
  }

  /** `s.find(sub, from)`: the lowest position at or after `from` where `sub` occurs, or -1. */
  function Find(s: string, sub: string, from: nat): (r: int)
    requires from <= |s|
    ensures r == -1 || (from <= r && OccursAt(s, sub, r))
    decreases |s| - from
  {
    if from + |sub| > |s| then -1
    else if s[from..from + |sub|] == sub then from
    else Find(s, sub, from + 1)
  }

  /** No occurrence at or after `from` comes before the one Find reports. */
  lemma {:induction false} FindIsFirst(s: string, sub: string, from: nat, i: int)
    requires from <= |s| && from <= i && OccursAt(s, sub, i)
    ensures 0 <= Find(s, sub, from) <= i
    decreases |s| - from
  {
    if from + |sub| <= |s| && s[from..from + |sub|] != sub {
      FindIsFirst(s, sub, from + 1, i);
    }
  }

  /** The highest position at most `i` where `sub` occurs in `s`, or -1. */
  function FindLastAtMost(s: string, sub: string, i: int): (r: int)
    ensures r == -1 || (0 <= r <= i && OccursAt(s, sub, r))
    decreases i + 1
  {
    if i < 0 then -1
    else if OccursAt(s, sub, i) then i
    else FindLastAtMost(s, sub, i - 1)
  }

  /** `s.rfind(sub)`: the highest position where `sub` occurs, or -1. */
  function RFind(s: string, sub: string): (r: int)
    ensures r == -1 || OccursAt(s, sub, r)
  {
    FindLastAtMost(s, sub, |s| - |sub|)
  }

  lemma {:induction false} FindLastAtMostIsLast(s: string, sub: string, i: int, j: int)
    requires j <= i && OccursAt(s, sub, j)
    ensures j <= FindLastAtMost(s, sub, i)
    decreases i + 1
  {
    if i >= 0 && !OccursAt(s, sub, i) {
      FindLastAtMostIsLast(s, sub, i - 1, j);
    }
  }

  /** No occurrence comes after the one RFind reports. */
  lemma RFindIsLast(s: string, sub: string, j: int)
    requires OccursAt(s, sub, j)
    ensures j <= RFind(s, sub)
  {
    FindLastAtMostIsLast(s, sub, |s| - |sub|, j);
  }

  /** `sub in s`. */
  predicate Contains(s: string, sub: string) {
    Find(s, sub, 0) >= 0
  }

  /** `sub in s` exactly when `s.rfind(sub)` finds something. */
  lemma ContainsIffRFind(s: string, sub: string)
    ensures Contains(s, sub) <==> RFind(s, sub) >= 0
  {
    if Contains(s, sub) {
      RFindIsLast(s, sub, Find(s, sub, 0));
    }
    if RFind(s, sub) >= 0 {
      FindIsFirst(s, sub, 0, RFind(s, sub));
    }
  }

  function LowerChar(c: char): char {
    if 'A' <= c <= 'Z' then (c as int + 32) as char else c
  }

  function UpperChar(c: char): char {
    if 'a' <= c <= 'z' then (c as int - 32) as char else c
  }

  /** `s.lower()` on the ASCII letters. */
  function Lower(s: string): (r: string)
    ensures |r| == |s|
    ensures forall k :: 0 <= k < |s| && 'A' <= s[k] <= 'Z' ==> r[k] as int == s[k] as int + 32
    ensures forall k :: 0 <= k < |s| && !('A' <= s[k] <= 'Z') ==> r[k] == s[k]
  {
    seq(|s|, i requires 0 <= i < |s| => LowerChar(s[i]))
  }

  /** Lowering twice is lowering once. */
  lemma LowerIdempotent(s: string)
    ensures Lower(Lower(s)) == Lower(s)
  {
  }

  /** `s.upper()` on the ASCII letters. */
  function Upper(s: string): (r: string)
    ensures |r| == |s|
    ensures forall k :: 0 <= k < |s| && 'a' <= s[k] <= 'z' ==> r[k] as int == s[k] as int - 32
    ensures forall k :: 0 <= k < |s| && !('a' <= s[k] <= 'z') ==> r[k] == s[k]
  {
    seq(|s|, i requires 0 <= i < |s| => UpperChar(s[i]))
  }
}
