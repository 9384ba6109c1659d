/**
 * The Python `str` operations the client relies on, over `string == seq<char>`:
 * `strip`, substring search (`in`, `split(sep, 1)`), `split(",")` and `join`.
 */
module Text {
  import opened Wrappers

  /** Python's `str.isspace()` on one character. */
  predicate IsSpace(c: char) {
    || '\t' <= c <= '\r'
    || '\U{1C}' <= c <= ' '
    || c == '\U{85}' || c == '\U{A0}' || c == '\U{1680}'
    || '\U{2000}' <= c <= '\U{200A}'
    || c == '\U{2028}' || c == '\U{2029}' || c == '\U{202F}' || c == '\U{205F}' || c == '\U{3000}'
  }

  /** The characters `str.strip()` without argument removes. */
  const Whitespace: set<char> := set c: char | '\t' <= c <= '\U{3000}' && IsSpace(c)

  // ---------------------------------------------------------------- strip

  /** Where Python's strip starts the result: the first index at or after `i` not in `drop`. */
  function StripStart(s: string, drop: set<char>, i: nat): (n: nat)
    requires i <= |s|
    ensures i <= n <= |s|
    ensures forall k :: i <= k < n ==> s[k] in drop
    ensures n < |s| ==> s[n] !in drop
    decreases |s| - i
  {
    if i < |s| && s[i] in drop then StripStart(s, drop, i + 1) else i
  }

  /** Where Python's strip ends the result: scanning down from `j`, never below `lo`. */
  function StripEnd(s: string, drop: set<char>, lo: nat, j: nat): (n: nat)
    requires lo <= j <= |s|
    ensures lo <= n <= j
    ensures forall k :: n <= k < j ==> s[k] in drop
    ensures n > lo ==> s[n - 1] !in drop
  {
    if j > lo && s[j - 1] in drop then StripEnd(s, drop, lo, j - 1) else j
  }

  /** No character of `drop` at either end of `s`: what stripping `drop` leaves. */
  predicate HasTrimmedEnds(s: string, drop: set<char>) {
    s != [] ==> s[0] !in drop && s[|s| - 1] !in drop
  }

  /** `r` is the piece of `s` starting at `i` once everything in `drop` is cut from both ends. */
  ghost predicate StripsAt(s: string, drop: set<char>, i: nat, r: string) {
    && i + |r| <= |s|
    && (forall k :: 0 <= k < |r| ==> r[k] == s[i + k])
    && (forall k :: 0 <= k < i ==> s[k] in drop)
    && (forall k :: i + |r| <= k < |s| ==> s[k] in drop)
    && HasTrimmedEnds(r, drop)
  }

  /** Reference definition of Python's `s.strip(chars)`, independent of how it is computed. */
  ghost predicate IsStripOf(s: string, drop: set<char>, r: string) {
    exists i :: StripsAt(s, drop, i, r)
  }

  /** Python's `s.strip(chars)`: scan from the left, then from the right down to where the left scan stopped. */
  function Strip(s: string, drop: set<char>): (r: string)
    ensures |r| <= |s|
  {
    var i := StripStart(s, drop, 0);
    s[i..StripEnd(s, drop, i, |s|)]
  }

  /** `Strip` meets the reference definition. */
  lemma StripIsStrip(s: string, drop: set<char>)
    ensures IsStripOf(s, drop, Strip(s, drop))
  {
    var i := StripStart(s, drop, 0);
    var j := StripEnd(s, drop, i, |s|);
    assert StripsAt(s, drop, i, s[i..j]);
  }

  /** The reference definition admits one result only, so `Strip` is exactly Python's strip. */
  lemma StripsAtUnique(s: string, drop: set<char>, i: nat, r: string, j: nat, r': string)
    requires StripsAt(s, drop, i, r) && StripsAt(s, drop, j, r')
    ensures r == r'
  {
    if r != [] && r' != [] {
      assert s[i] == r[0] && s[j] == r'[0];
      assert i == j;
      var e, e' := i + |r| - 1, j + |r'| - 1;
      assert s[e] == r[|r| - 1] && s[e'] == r'[|r'| - 1];
      assert e == e';
    }
  }

  /** Stripping twice removes nothing more: Python's `s.strip().strip() == s.strip()`. */
  lemma StripIdempotent(s: string, drop: set<char>)
    ensures Strip(Strip(s, drop), drop) == Strip(s, drop)
  {
    var r := Strip(s, drop);
    StripIsStrip(s, drop);
    StripIsStrip(r, drop);
    assert StripsAt(r, drop, 0, r);
    var i :| StripsAt(r, drop, i, Strip(r, drop));
    StripsAtUnique(r, drop, 0, r, i, Strip(r, drop));
  }

  /** A string with no droppable character at either end is its own strip. */
  lemma StripUnchanged(s: string, drop: set<char>)
    requires HasTrimmedEnds(s, drop)
    ensures Strip(s, drop) == s
  {
    assert s[0..|s|] == s;
  }

  // ---------------------------------------------------------------- search

  /** `pat` occurs in `s` starting at index `k`. */
  predicate OccursAt(s: string, pat: string, k: nat) {
    k + |pat| <= |s| && s[k..k + |pat|] == pat
  }

  /** The first index at or after `from` where `pat` occurs in `s` (Python's `s.find(pat, from)`). */
  function IndexOfFrom(s: string, pat: string, from: nat): (r: Option<nat>)
    requires from <= |s|
    ensures r.Some? ==> from <= r.value && OccursAt(s, pat, r.value)
    ensures r.Some? ==> forall k: nat :: from <= k < r.value ==> !OccursAt(s, pat, k)
    ensures r.None? ==> forall k: nat :: from <= k ==> !OccursAt(s, pat, k)
    decreases |s| - from
  {
    if OccursAt(s, pat, from) then Some(from)
    else if from == |s| then None
    else IndexOfFrom(s, pat, from + 1)
  }

  /** The first occurrence of `pat` in `s`, if any: `pat in s` holds exactly when this is `Some`. */
  function IndexOf(s: string, pat: string): (r: Option<nat>)
    ensures r.Some? ==> OccursAt(s, pat, r.value) && forall k: nat :: k < r.value ==> !OccursAt(s, pat, k)
    ensures r.None? ==> forall k: nat :: !OccursAt(s, pat, k)
  {
    IndexOfFrom(s, pat, 0)
  }

  /** A string that does not contain `pat` has no slice containing it. */
  lemma NoOccurrenceInSlice(s: string, pat: string, a: nat, b: nat)
    requires a <= b <= |s|
    requires forall k: nat :: !OccursAt(s, pat, k)
    ensures forall k: nat :: !OccursAt(s[a..b], pat, k)
  {
    forall k: nat
      ensures !OccursAt(s[a..b], pat, k)
    {
      if k + |pat| <= b - a {
        var piece := s[a..b];
        assert forall t :: k <= t < k + |pat| ==> piece[t] == s[a + t];
        assert piece[k..k + |pat|] == s[a + k..a + k + |pat|];
        assert !OccursAt(s, pat, a + k);
      }
    }
  }

  // ---------------------------------------------------------------- split and join

  /** Python's `s.split(sep)` for a one-character separator: never empty, `"".split(",") == [""]`. */
  function Split(s: string, sep: char): (parts: seq<string>)
    ensures |parts| >= 1
    ensures forall p :: p in parts ==> sep !in p
  {
    if s == [] then [""]
    else
      var rest := Split(s[1..], sep);
      if s[0] == sep then [""] + rest else [[s[0]] + rest[0]] + rest[1..]
  }

  /** Without a separator there is one part: the whole string. */
  lemma {:induction false} SplitNoSeparator(s: string, sep: char)
    requires sep !in s
    ensures Split(s, sep) == [s]
  {
    if s != [] {
      SplitNoSeparator(s[1..], sep);
      assert [s[0]] + s[1..] == s;
    }
  }

  /** The first separator ends the first part; the rest is split the same way. */
  lemma {:induction false} SplitAtSeparator(a: string, b: string, sep: char)
    requires sep !in a
    ensures Split(a + [sep] + b, sep) == [a] + Split(b, sep)
  {
    var s := a + [sep] + b;
    if a == [] {
      assert s[1..] == b;
    } else {
      assert s[1..] == a[1..] + [sep] + b;
      SplitAtSeparator(a[1..], b, sep);
      assert [a[0]] + a[1..] == a;
    }
  }

  /** Python's `sep.join(parts)`. */
  function Join(parts: seq<string>, sep: string): string {
    if |parts| == 0 then ""
    else if |parts| == 1 then parts[0]
    else parts[0] + sep + Join(parts[1..], sep)
  }

  /** Splitting and joining back with the same separator gives the original string. */
  lemma {:induction false} JoinSplit(s: string, sep: char)
    ensures Join(Split(s, sep), [sep]) == s
  {
    if s != [] {
      var rest := Split(s[1..], sep);
      JoinSplit(s[1..], sep);
      if s[0] == sep {
        assert Split(s, sep) == [""] + rest;
        assert ([""] + rest)[1..] == rest;
      } else {
        var parts := [[s[0]] + rest[0]] + rest[1..];
        assert Split(s, sep) == parts;
        if |rest| == 1 {
          assert Join(rest, [sep]) == rest[0];
        } else {
          assert Join(rest, [sep]) == rest[0] + [sep] + Join(rest[1..], [sep]);
          assert parts[1..] == rest[1..];
        }
      }
    }
  }

  /** Where the `i`-th part starts inside `Join(parts, sep)`. */
  function PartOffset(parts: seq<string>, sep: string, i: nat): nat
    requires i < |parts|
  {
    if i == 0 then 0 else |parts[0]| + |sep| + PartOffset(parts[1..], sep, i - 1)
  }

  /** An occurrence inside `b` is an occurrence inside `a + b`, shifted by `|a|`. */
  lemma OccursAfter(a: string, b: string, pat: string, k: nat)
    requires OccursAt(b, pat, k)
    ensures OccursAt(a + b, pat, |a| + k)
  {
    assert (a + b)[|a| + k..|a| + k + |pat|] == b[k..k + |pat|];
  }

  /** An occurrence inside `a` is an occurrence inside `a + b`. */
  lemma OccursBefore(a: string, b: string, pat: string, k: nat)
    requires OccursAt(a, pat, k)
    ensures OccursAt(a + b, pat, k)
  {
    assert (a + b)[k..k + |pat|] == a[k..k + |pat|];
  }

  /** An occurrence inside an occurrence is an occurrence: offsets add up. */
  lemma OccursWithin(s: string, mid: string, pat: string, o: nat, k: nat)
    requires OccursAt(s, mid, o) && OccursAt(mid, pat, k)
    ensures OccursAt(s, pat, o + k)
  {
    assert forall t :: 0 <= t < |pat| ==> s[o + k + t] == mid[k + t] == pat[t];
    assert s[o + k..o + k + |pat|] == pat;
  }

  /** The first part starts the joined string, and the separator follows it when more parts come. */
  lemma JoinStartsWithFirst(parts: seq<string>, sep: string)
    requires |parts| >= 1
    ensures OccursAt(Join(parts, sep), parts[0], 0)
    ensures |parts| > 1 ==> OccursAt(Join(parts, sep), sep, |parts[0]|)
    ensures |parts| == 1 ==> |Join(parts, sep)| == |parts[0]|
  {
    assert OccursAt(parts[0], parts[0], 0);
    if |parts| > 1 {
      var tail := Join(parts[1..], sep);
      assert Join(parts, sep) == parts[0] + (sep + tail);
      OccursBefore(parts[0], sep + tail, parts[0], 0);
      assert OccursAt(sep, sep, 0);
      OccursBefore(sep, tail, sep, 0);
      OccursAfter(parts[0], sep + tail, sep, 0);
    }
  }

  /**
   * `Join` lays the parts out in order: part `i` sits at `PartOffset(parts, sep, i)`, a separator
   * follows every part but the last, and the last part ends the string.
   */
  lemma {:induction false} JoinLayout(parts: seq<string>, sep: string, i: nat)
    requires i < |parts|
    ensures OccursAt(Join(parts, sep), parts[i], PartOffset(parts, sep, i))
    ensures i + 1 < |parts| ==> OccursAt(Join(parts, sep), sep, PartOffset(parts, sep, i) + |parts[i]|)
    ensures i + 1 < |parts| ==> PartOffset(parts, sep, i + 1) == PartOffset(parts, sep, i) + |parts[i]| + |sep|
    ensures i + 1 == |parts| ==> |Join(parts, sep)| == PartOffset(parts, sep, i) + |parts[i]|
  {
    if i == 0 {
      JoinStartsWithFirst(parts, sep);
    } else {
      var head, tail := parts[0] + sep, Join(parts[1..], sep);
      assert Join(parts, sep) == head + tail;
      JoinLayout(parts[1..], sep, i - 1);
      var o := PartOffset(parts[1..], sep, i - 1);
      OccursAfter(head, tail, parts[i], o);
      if i + 1 < |parts| {
        OccursAfter(head, tail, sep, o + |parts[i]|);
      }
    }
  }
}
