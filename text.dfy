/**
 * String splitting as Python's `str.split(sep)` does it, for a one-character
 * separator (`Split`) and for the first pieces of a split on a multi-character
 * separator (`BeforeFirst` is `s.split(pat)[0]`, `FieldAfterFirst` is
 * `s.split(pat)[1]`).
 */
module Text {
  import opened Wrappers

  /** Number of occurrences of `c` in `s`. */
  function Count(s: string, c: char): nat
  {
    if s == [] then 0 else (if s[0] == c then 1 else 0) + Count(s[1..], c)
  }

  /** The inverse of `Split`: the parts glued back together with `sep`. */
  function Join(parts: seq<string>, sep: char): string
    requires |parts| >= 1
  {
    if |parts| == 1 then parts[0] else parts[0] + [sep] + Join(parts[1..], sep)
  }

  /** `s.split(sep)`: the maximal `sep`-free pieces between separators. */
  function Split(s: string, sep: char): (r: seq<string>)
    ensures |r| == Count(s, sep) + 1
    ensures forall i :: 0 <= i < |r| ==> sep !in r[i]
    ensures Join(r, sep) == s
  {
    if s == [] then [""]
    else
      var rest := Split(s[1..], sep);
      if s[0] == sep then [""] + rest
      else
        assert Join(rest, sep) == s[1..];
        JoinConsFirst(rest, s[0], sep);
        [[s[0]] + rest[0]] + rest[1..]
  }

  lemma JoinConsFirst(parts: seq<string>, c: char, sep: char)
    requires |parts| >= 1
    ensures Join([[c] + parts[0]] + parts[1..], sep) == [c] + Join(parts, sep)
  {
    var q := [[c] + parts[0]] + parts[1..];
    assert q[1..] == parts[1..];
  }

  /** Splitting a join of separator-free parts gives the parts back. */
  lemma {:induction false} SplitJoin(parts: seq<string>, sep: char)
    requires |parts| >= 1
    requires forall i :: 0 <= i < |parts| ==> sep !in parts[i]
    ensures Split(Join(parts, sep), sep) == parts
  {
    if |parts| == 1 {
      SplitFree(parts[0], sep);
    } else {
      forall i | 0 <= i < |parts[1..]| ensures sep !in parts[1..][i] {
        assert parts[1..][i] == parts[i + 1];
      }
      SplitJoin(parts[1..], sep);
      SplitPrefix(parts[0], Join(parts[1..], sep), sep);
      assert [parts[0]] + parts[1..] == parts;
    }
  }

  /** A separator-free string is a single piece. */
  lemma {:induction false} SplitFree(s: string, sep: char)
    requires sep !in s
    ensures Split(s, sep) == [s]
  {
    if s != [] {
      assert sep !in s[1..] by {
        forall k | 0 <= k < |s[1..]| ensures s[1..][k] != sep { assert s[1..][k] == s[k + 1]; }
      }
      SplitFree(s[1..], sep);
    }
  }

  /** Splitting `p + [sep] + t` with a separator-free `p` puts `p` first. */
  lemma {:induction false} SplitPrefix(p: string, t: string, sep: char)
    requires sep !in p
    ensures Split(p + [sep] + t, sep) == [p] + Split(t, sep)
  {
    var s := p + [sep] + t;
    if p == [] {
      assert s[1..] == t;
    } else {
      assert s[1..] == p[1..] + [sep] + t;
      assert sep !in p[1..] by {
        forall k | 0 <= k < |p[1..]| ensures p[1..][k] != sep { assert p[1..][k] == p[k + 1]; }
      }
      SplitPrefix(p[1..], t, sep);
      assert [p[0]] + p[1..] == p;
    }
  }

  /** `pat` occurs in `s` starting at index `i`. */
  predicate OccursAt(s: string, pat: string, i: nat)
  {
    i + |pat| <= |s| && s[i..i + |pat|] == pat
  }

  /** The first index at or after `from` where `pat` occurs, as `str.find` returns it. */
  function FindFrom(s: string, pat: string, from: nat): (r: Option<nat>)
    decreases |s| - from
    ensures r.Some? ==> from <= r.value && OccursAt(s, pat, r.value)
    ensures r.Some? ==> forall k :: from <= k < r.value ==> !OccursAt(s, pat, k)
    ensures r.None? ==> forall k :: from <= k ==> !OccursAt(s, pat, k)
  {
    if from + |pat| > |s| then None
    else if s[from..from + |pat|] == pat then Some(from)
    else FindFrom(s, pat, from + 1)
  }

  /** `s.split(pat)[0]`: everything before the first occurrence of `pat`, or all of `s`. */
  function BeforeFirst(s: string, pat: string): (r: string)
    ensures r <= s
    ensures r == s || OccursAt(s, pat, |r|)
    ensures forall k: nat :: k < |r| ==> !OccursAt(s, pat, k)
  {
    match FindFrom(s, pat, 0)
    case None => s
    case Some(i) => s[..i]
  }

  /**
   * `s.split(pat)[1]`: the text between the first and the second occurrence of
   * `pat` (or the end); `None` where Python raises IndexError because `pat`
   * does not occur.
   */
  function FieldAfterFirst(s: string, pat: string): (r: Option<string>)
    requires |pat| > 0
    ensures r.None? <==> forall k :: !OccursAt(s, pat, k)
  {
    match FindFrom(s, pat, 0)
    case None => None
    case Some(i) =>
      match FindFrom(s, pat, i + |pat|)
      case None => Some(s[i + |pat|..])
      case Some(j) => Some(s[i + |pat|..j])
  }

  /** A character that `s` lacks from `from` on cannot be part of an occurrence there. */
  lemma NoOccurrenceWithoutChar(s: string, pat: string, c: char, from: nat)
    requires from <= |s| && c in pat && c !in s[from..]
    ensures forall k :: from <= k ==> !OccursAt(s, pat, k)
  {
    var m := FirstIndex(pat, c);
    forall k | from <= k && k + |pat| <= |s| ensures !OccursAt(s, pat, k) {
      assert s[k..k + |pat|][m] == s[from..][k + m - from];
    }
  }

  /** No occurrence of `pat` in `p + pat + t` starts inside `p` when a character of `pat` is in neither. */
  lemma NoEarlyOccurrence(p: string, pat: string, t: string, c: char, k: nat)
    requires c in pat && c !in p && c !in t && k < |p|
    ensures !OccursAt(p + pat + t, pat, k)
  {
    var s := p + pat + t;
    var m := FirstIndex(pat, c);
    if k + |pat| <= |s| {
      if k + m < |p| {
        assert s[k + m] == p[k + m];
      } else {
        assert s[k + m] == pat[k + m - |p|];
      }
      assert s[k..k + |pat|][m] == s[k + m] != c;
    }
  }

  /** `(p + pat + t).split(pat)[1] == t` when some character of `pat` is in neither `p` nor `t`. */
  lemma FieldAfterMarker(p: string, pat: string, t: string, c: char)
    requires c in pat && c !in p && c !in t
    ensures FieldAfterFirst(p + pat + t, pat) == Some(t)
  {
    var s := p + pat + t;
    assert s[|p|..|p| + |pat|] == pat;
    assert OccursAt(s, pat, |p|);
    forall k: nat | k < |p| ensures !OccursAt(s, pat, k) {
      NoEarlyOccurrence(p, pat, t, c, k);
    }
    assert FindFrom(s, pat, 0) == Some(|p|);
    assert s[|p| + |pat|..] == t;
    NoOccurrenceWithoutChar(s, pat, c, |p| + |pat|);
  }

  function FirstIndex(s: string, c: char): (m: nat)
    requires c in s
    ensures m < |s| && s[m] == c && forall j :: 0 <= j < m ==> s[j] != c
  {
    if s[0] == c then 0 else FirstIndex(s[1..], c) + 1
  }
}
