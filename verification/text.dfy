/**
 * Python string primitives the agent's text protocol relies on: the
 * whitespace class, `str.strip`, substring search (`in`), and
 * `str.split` / `str.join`. Strings are sequences of Unicode scalar values.
 */
module Text {
  import opened Wrappers

  /** The characters Python's `str.isspace()` accepts. `str.strip()` without
      an argument removes exactly these, and `\s` in a regular expression over
      `str` matches exactly these. */
  predicate IsSpace(c: char) {
    || ('\t' <= c <= '\r')
    || ('\U{001C}' <= c <= ' ')
    || c == '\U{0085}' || c == '\U{00A0}' || c == '\U{1680}'
    || ('\U{2000}' <= c <= '\U{200A}')
    || c == '\U{2028}' || c == '\U{2029}' || c == '\U{202F}' || c == '\U{205F}' || c == '\U{3000}'
  }

  /** The ASCII decimal digits. */
  predicate IsDigit(c: char) {
    '0' <= c <= '9'
  }

  /** The space character: what `str.strip(" ")` removes. */
  predicate IsBlank(c: char) {
    c == ' '
  }

  /** The double quote: what `str.strip('"')` removes. */
  predicate IsQuote(c: char) {
    c == '"'
  }

  /** Every character of `s` at an index in [i, j) satisfies `drop`. */
  predicate AllInRange(s: string, i: int, j: int, drop: char -> bool)
    requires 0 <= i <= j <= |s|
  {
    forall k :: i <= k < j ==> drop(s[k])
  }

  /** The first index at or after `i` whose character fails `drop`
      (or |s| when there is none). */
  function Skip(s: string, i: nat, drop: char -> bool): (j: nat)
    requires i <= |s|
    ensures i <= j <= |s|
    ensures AllInRange(s, i, j, drop)
    ensures j == |s| || !drop(s[j])
    decreases |s| - i
  {
    if i == |s| || !drop(s[i]) then i else Skip(s, i + 1, drop)
  }

  /** Scanning backwards from `j` but not past `lo`, the index just after
      the last character failing `drop` (or `lo` when there is none). */
  function SkipBack(s: string, lo: nat, j: nat, drop: char -> bool): (b: nat)
    requires lo <= j <= |s|
    ensures lo <= b <= j
    ensures AllInRange(s, b, j, drop)
    ensures b == lo || !drop(s[b - 1])
    decreases j - lo
  {
    if j == lo || !drop(s[j - 1]) then j else SkipBack(s, lo, j - 1, drop)
  }

  /** The conditions under which s[a..b] is what stripping the characters
      satisfying `drop` from both ends of `s` leaves. */
  predicate TrimBounds(s: string, drop: char -> bool, a: int, b: int) {
    && 0 <= a <= b <= |s|
    && AllInRange(s, 0, a, drop)
    && AllInRange(s, b, |s|, drop)
    && (a < b ==> !drop(s[a]) && !drop(s[b - 1]))
  }

  /** Python's `s.strip(chars)`, with `drop` telling which characters are in
      `chars`: `s.strip()` is `Strip(s, IsSpace)`, `s.strip(" ")` is
      `Strip(s, IsBlank)` and `s.strip('"')` is `Strip(s, IsQuote)`. */
  function Strip(s: string, drop: char -> bool): (r: string)
    ensures |r| <= |s|
    ensures r == [] || (!drop(r[0]) && !drop(r[|r| - 1]))
    ensures exists a, b :: TrimBounds(s, drop, a, b) && r == s[a..b]
  {
    var a := Skip(s, 0, drop);
    var b := SkipBack(s, a, |s|, drop);
    assert TrimBounds(s, drop, a, b);
    s[a..b]
  }

  /** `Skip` is pinned down by its contract: any index with the same
      properties is the one it returns. */
  lemma {:induction false} SkipExact(s: string, i: nat, j: nat, drop: char -> bool)
    requires i <= j <= |s|
    requires AllInRange(s, i, j, drop)
    requires j == |s| || !drop(s[j])
    ensures Skip(s, i, drop) == j
    decreases j - i
  {
    if i < j {
      assert drop(s[i]);
      SkipExact(s, i + 1, j, drop);
    }
  }

  /** `SkipBack` is pinned down by its contract. */
  lemma {:induction false} SkipBackExact(s: string, lo: nat, b: nat, j: nat, drop: char -> bool)
    requires lo <= b <= j <= |s|
    requires AllInRange(s, b, j, drop)
    requires b == lo || !drop(s[b - 1])
    ensures SkipBack(s, lo, j, drop) == b
    decreases j - b
  {
    if b < j {
      assert drop(s[j - 1]);
      SkipBackExact(s, lo, b, j - 1, drop);
    }
  }

  /** Any split of `s` into a stripped prefix, a kept middle and a stripped
      suffix, with the middle starting and ending with characters failing `drop`, has the
      middle equal to `Strip(s, drop)`: the result of stripping is unique. */
  lemma StripUnique(s: string, drop: char -> bool, a: int, b: int)
    requires TrimBounds(s, drop, a, b)
    ensures Strip(s, drop) == s[a..b]
  {
    if a < b {
      SkipExact(s, 0, a, drop);
      SkipBackExact(s, a, b, |s|, drop);
    } else {
      SkipExact(s, 0, |s|, drop);
      SkipBackExact(s, |s|, |s|, |s|, drop);
    }
  }

  /** Stripping twice strips nothing more. */
  lemma StripIdempotent(s: string, drop: char -> bool)
    ensures Strip(Strip(s, drop), drop) == Strip(s, drop)
  {
    var r := Strip(s, drop);
    assert r == [] || (!drop(r[0]) && !drop(r[|r| - 1]));
    assert TrimBounds(r, drop, 0, |r|);
    StripUnique(r, drop, 0, |r|);
    assert r[0..|r|] == r;
  }

  /** A leading character that is stripped anyway does not change the result. */
  lemma StripPastDropped(c: char, t: string, drop: char -> bool)
    requires drop(c)
    ensures Strip([c] + t, drop) == Strip(t, drop)
  {
    var r := Strip(t, drop);
    var a, b :| TrimBounds(t, drop, a, b) && r == t[a..b];
    TrimBoundsShift(c, t, drop, a, b);
    StripUnique([c] + t, drop, a + 1, b + 1);
    ShiftSlice(c, t, a, b);
  }

  /** Slicing after one prepended character. */
  lemma ShiftSlice<T>(c: T, t: seq<T>, a: int, b: int)
    requires 0 <= a <= b <= |t|
    ensures ([c] + t)[a + 1..b + 1] == t[a..b]
  {
  }

  /** Bounds that strip `t` also strip `[c] + t`, one place later, when `c`
      is dropped. */
  lemma TrimBoundsShift(c: char, t: string, drop: char -> bool, a: int, b: int)
    requires drop(c)
    requires TrimBounds(t, drop, a, b)
    ensures TrimBounds([c] + t, drop, a + 1, b + 1)
  {
    var s := [c] + t;
    forall k | 0 <= k < a + 1
      ensures drop(s[k])
    {
      if k > 0 {
        assert s[k] == t[k - 1];
      }
    }
    forall k | b + 1 <= k < |s|
      ensures drop(s[k])
    {
      assert s[k] == t[k - 1];
    }
  }

  /** A string that does not contain the first character of `t` does not
      contain `t`. */
  lemma MissingLeadChar(s: string, t: string)
    requires |t| > 0 && t[0] !in s
    ensures !Contains(s, t)
  {
    forall k | 0 <= k <= |s| - |t|
      ensures !OccursAt(s, t, k)
    {
      assert s[k] in s;
      assert s[k..k + |t|][0] == s[k];
    }
  }

  /** The least index in [j, n) satisfying `p`, if there is one. */
  function FirstFrom(n: nat, j: nat, p: nat -> bool): (r: Option<nat>)
    ensures r.Some? ==> j <= r.value < n && p(r.value)
    decreases n - j
  {
    if j >= n then None else if p(j) then Some(j) else FirstFrom(n, j + 1, p)
  }

  /** `FirstFrom` stops at or before every index in range satisfying `p`. */
  lemma {:induction false} FirstFromMinimal(n: nat, j: nat, p: nat -> bool, k: nat)
    requires j <= k < n && p(k)
    ensures FirstFrom(n, j, p).Some? && FirstFrom(n, j, p).value <= k
    decreases k - j
  {
    if !p(j) {
      FirstFromMinimal(n, j + 1, p, k);
    }
  }

  /** `t` occurs in `s` starting at index `k`. */
  predicate OccursAt(s: string, t: string, k: int) {
    0 <= k && k + |t| <= |s| && s[k..k + |t|] == t
  }

  /** Python's `t in s` for strings. */
  predicate Contains(s: string, t: string) {
    exists k :: 0 <= k <= |s| - |t| && OccursAt(s, t, k)
  }

  /** Whether `t` occurs in `s` at an index. */
  function OccursIn(s: string, t: string): nat -> bool {
    k => OccursAt(s, t, k)
  }

  /** The index of the first occurrence of `t` in `s` at or after `i`. */
  function FindFrom(s: string, t: string, i: nat): (r: Option<nat>)
    ensures r.Some? ==> i <= r.value && OccursAt(s, t, r.value)
  {
    FirstFrom(|s| + 1, i, OccursIn(s, t))
  }

  /** `FindFrom` stops at or before every occurrence from `i` on. */
  lemma FindFromMinimal(s: string, t: string, i: nat, k: nat)
    requires i <= k && OccursAt(s, t, k)
    ensures FindFrom(s, t, i).Some? && FindFrom(s, t, i).value <= k
  {
    assert OccursIn(s, t)(k);
    FirstFromMinimal(|s| + 1, i, OccursIn(s, t), k);
  }

  /** Nothing before the occurrence `FindFrom` reports is an occurrence. */
  lemma BeforeFirstOccurrence(s: string, t: string, i: nat, k: nat)
    requires FindFrom(s, t, i).Some? && i <= k < FindFrom(s, t, i).value
    ensures !OccursAt(s, t, k)
  {
    if OccursAt(s, t, k) {
      FindFromMinimal(s, t, i, k);
    }
  }

  /** No proper suffix of `t` begins with `t`'s first character, so two
      occurrences of `t` can never overlap. Both "Final Answer:" and the
      separators ", " and "\n" have this shape. */
  predicate LeadUnique(t: string) {
    |t| > 0 && forall d :: 0 < d < |t| ==> t[d] != t[0]
  }

  /** Two occurrences of a lead-unique string do not overlap. */
  lemma NoOverlap(s: string, t: string, p: int, q: int)
    requires LeadUnique(t)
    requires OccursAt(s, t, p) && OccursAt(s, t, q) && p < q
    ensures p + |t| <= q
  {
    assert s[q] == t[0];
    assert forall d :: 0 <= d < |t| ==> s[p + d] == t[d];
  }

  /** Python's "sep".join(parts). */
  function Join(parts: seq<string>, sep: string): (r: string)
    decreases |parts|
  {
    if |parts| == 0 then ""
    else if |parts| == 1 then parts[0]
    else parts[0] + sep + Join(parts[1..], sep)
  }

  /** The last element of a non-empty sequence. */
  function Last<T>(xs: seq<T>): T
    requires |xs| > 0
  {
    xs[|xs| - 1]
  }

  /** Python's `s.split(sep)` for a non-empty separator: the pieces between
      the non-overlapping occurrences found scanning left to right. */
  function Split(s: string, sep: string): (parts: seq<string>)
    requires |sep| > 0
    ensures |parts| >= 1
    decreases |s|
  {
    match FindFrom(s, sep, 0)
    case None =>
      [s]
    case Some(p) =>
      [s[..p]] + Split(s[p + |sep|..], sep)
  }

  /** Joining the pieces of a split back with the separator gives the
      string, and no piece contains the separator. */
  lemma {:induction false} SplitParts(s: string, sep: string)
    requires |sep| > 0
    ensures forall i :: 0 <= i < |Split(s, sep)| ==> !Contains(Split(s, sep)[i], sep)
    ensures Join(Split(s, sep), sep) == s
    decreases |s|
  {
    match FindFrom(s, sep, 0)
    case None =>
      NotContainsFind(s, sep);
      SplitNone(s, sep);
    case Some(p) =>
      var rest := s[p + |sep|..];
      PrefixBeforeFirst(s, sep, p);
      SplitParts(rest, sep);
      SplitFirst(s, sep, p);
      assert s == s[..p] + sep + rest;
  }

  /** A string with no separator is split into itself. */
  lemma SplitNone(s: string, sep: string)
    requires |sep| > 0
    requires FindFrom(s, sep, 0).None?
    ensures Split(s, sep) == [s]
  {
  }

  /** One step of `Split`. */
  lemma SplitFirst(s: string, sep: string, p: nat)
    requires |sep| > 0
    requires FindFrom(s, sep, 0) == Some(p)
    ensures p + |sep| <= |s|
    ensures Split(s, sep) == [s[..p]] + Split(s[p + |sep|..], sep)
  {
    assert OccursAt(s, sep, p);
    var rest := s[p + |sep|..];
    assert Split(s, sep) == [s[..p]] + Split(rest, sep);
  }

  /** The text before the first occurrence of `sep` does not contain it. */
  lemma PrefixBeforeFirst(s: string, sep: string, p: nat)
    requires |sep| > 0
    requires FindFrom(s, sep, 0) == Some(p)
    ensures !Contains(s[..p], sep)
  {
    forall k | 0 <= k <= p - |sep|
      ensures !OccursAt(s[..p], sep, k)
    {
      BeforeFirstOccurrence(s, sep, 0, k);
      assert s[..p][k..k + |sep|] == s[k..k + |sep|];
    }
  }

  /** `s` has no occurrence of `t` anywhere exactly when the search from the
      start finds none. */
  lemma NotContainsFind(s: string, t: string)
    ensures !Contains(s, t) <==> FindFrom(s, t, 0).None?
  {
    if FindFrom(s, t, 0).Some? {
      assert OccursAt(s, t, FindFrom(s, t, 0).value);
    }
    if Contains(s, t) {
      var k :| 0 <= k <= |s| - |t| && OccursAt(s, t, k);
      FindFromMinimal(s, t, 0, k);
    }
  }

  /** The last piece of `s.split(sep)` is exactly the text after the last
      occurrence of `sep`: whenever `s` is `pre + sep + tail` with no `sep`
      in `tail`, the last piece is `tail`. */
  lemma {:induction false} LastPieceAfterLastSeparator(s: string, sep: string, pre: string, tail: string)
    requires LeadUnique(sep)
    requires s == pre + sep + tail
    requires !Contains(tail, sep)
    ensures Last(Split(s, sep)) == tail
    decreases |s|
  {
    JoinSlices(pre, sep, tail, 0);
    assert OccursAt(s, sep, |pre|);
    FindFromMinimal(s, sep, 0, |pre|);
    var p := FindFrom(s, sep, 0).value;
    NoOverlapBefore(s, sep, p, |pre|);
    var rest := s[p + |sep|..];
    SplitLastStep(s, sep, p);
    if p == |pre| {
      JoinSlices(pre, sep, tail, |pre|);
      NotContainsFind(tail, sep);
      SplitNone(tail, sep);
    } else {
      JoinSlices(pre, sep, tail, p + |sep|);
      LastPieceAfterLastSeparator(rest, sep, pre[p + |sep|..], tail);
    }
  }

  /** Where the pieces of `pre + sep + tail` sit. */
  lemma JoinSlices(pre: string, sep: string, tail: string, n: nat)
    requires n <= |pre|
    ensures (pre + sep + tail)[..|pre|] == pre
    ensures (pre + sep + tail)[|pre|..|pre| + |sep|] == sep
    ensures (pre + sep + tail)[n..] == pre[n..] + sep + tail
    ensures (pre + sep + tail)[|pre| + |sep|..] == tail
  {
  }

  /** The last piece of a split is the last piece of what follows the first
      separator. */
  lemma SplitLastStep(s: string, sep: string, p: nat)
    requires |sep| > 0
    requires FindFrom(s, sep, 0) == Some(p)
    ensures p + |sep| <= |s|
    ensures Last(Split(s, sep)) == Last(Split(s[p + |sep|..], sep))
  {
    SplitFirst(s, sep, p);
    LastOfCons(s[..p], Split(s[p + |sep|..], sep));
  }

  /** Prepending does not change the last element of a non-empty sequence. */
  lemma LastOfCons<T>(x: T, xs: seq<T>)
    requires |xs| > 0
    ensures Last([x] + xs) == Last(xs)
  {
  }


  /** Between the first occurrence `p` and a later occurrence `q` of a
      lead-unique separator there is room for the whole separator. */
  lemma NoOverlapBefore(s: string, sep: string, p: int, q: int)
    requires LeadUnique(sep)
    requires OccursAt(s, sep, p) && OccursAt(s, sep, q) && p <= q
    ensures p == q || p + |sep| <= q
  {
    if p < q {
      NoOverlap(s, sep, p, q);
    }
  }

  /** Splitting a join gives the parts back, as long as no part contains the
      (lead-unique) separator. */
  lemma {:induction false} SplitJoin(parts: seq<string>, sep: string)
    requires LeadUnique(sep)
    requires |parts| >= 1
    requires forall i :: 0 <= i < |parts| ==> !Contains(parts[i], sep)
    ensures Split(Join(parts, sep), sep) == parts
    decreases |parts|
  {
    if |parts| == 1 {
      NotContainsFind(parts[0], sep);
      SplitNone(parts[0], sep);
      assert parts == [parts[0]];
    } else {
      var p0 := parts[0];
      var rest := Join(parts[1..], sep);
      assert Join(parts, sep) == p0 + sep + rest;
      FirstSeparatorAfterPart(p0, sep, rest);
      SplitFirst(p0 + sep + rest, sep, |p0|);
      JoinSlices(p0, sep, rest, 0);
      SplitJoin(parts[1..], sep);
      assert parts == [p0] + parts[1..];
    }
  }

  /** In `p + sep + rest`, with no `sep` inside `p`, the first occurrence
      of a lead-unique `sep` is the one right after `p`. */
  lemma FirstSeparatorAfterPart(p: string, sep: string, rest: string)
    requires LeadUnique(sep)
    requires !Contains(p, sep)
    ensures FindFrom(p + sep + rest, sep, 0) == Some(|p|)
  {
    var s := p + sep + rest;
    JoinSlices(p, sep, rest, 0);
    assert OccursAt(s, sep, |p|);
    forall k | 0 <= k < |p|
      ensures !OccursAt(s, sep, k)
    {
      OccurrenceInFirstPart(p, sep, rest, k);
    }
    FindFromFirst(s, sep, 0, |p|);
  }

  /** `FindFrom` returns the first occurrence at or after `i`. */
  lemma FindFromFirst(s: string, t: string, i: nat, p: nat)
    requires i <= p && OccursAt(s, t, p)
    requires forall k :: i <= k < p ==> !OccursAt(s, t, k)
    ensures FindFrom(s, t, i) == Some(p)
  {
    FindFromMinimal(s, t, i, p);
  }

  /** An occurrence of a lead-unique `sep` in `p + sep + rest` that starts
      inside `p` lies wholly inside `p`. */
  lemma OccurrenceInFirstPart(p: string, sep: string, rest: string, k: int)
    requires LeadUnique(sep)
    requires !Contains(p, sep)
    requires 0 <= k < |p|
    ensures !OccursAt(p + sep + rest, sep, k)
  {
    var s := p + sep + rest;
    assert s[|p|..|p| + |sep|] == sep;
    if OccursAt(s, sep, k) {
      NoOverlap(s, sep, k, |p|);
      assert s[k..k + |sep|] == p[k..k + |sep|];
      assert OccursAt(p, sep, k);
    }
  }

  /** A one-character string occurs in `s` exactly when the character does. */
  lemma ContainsChar(s: string, c: char)
    ensures Contains(s, [c]) <==> c in s
  {
    if c in s {
      var k :| 0 <= k < |s| && s[k] == c;
      assert s[k..k + 1] == [c];
      assert OccursAt(s, [c], k);
    }
    if Contains(s, [c]) {
      var k :| 0 <= k <= |s| - 1 && OccursAt(s, [c], k);
      assert s[k] == s[k..k + 1][0];
    }
  }
}
