/** Character-string primitives the resolver is built from: the C library
    searches `strstr`, `strchr`, `strrchr` and the kernel's `strnchr`, each
    given a reference definition characterised by its contract, and a
    split/join pair used by the address literal grammars. A C string is
    modelled by the sequence of its characters before the terminator. */
module Text {

  datatype Option<+T> = None | Some(value: T)

  /** `pat` occurs in `s` starting at index `j`. */
  predicate OccursAt(s: string, pat: string, j: int)
  {
    0 <= j && j + |pat| <= |s| && forall k :: 0 <= k < |pat| ==> s[j + k] == pat[k]
  }

  /** `j` is the first occurrence of `pat` in `s` at or after `from`. */
  predicate FirstOccurrence(s: string, pat: string, from: int, j: int)
  {
    from <= j && OccursAt(s, pat, j) && forall k :: from <= k < j ==> !OccursAt(s, pat, k)
  }

  /** `pat` does not occur in `s` at or after `from`. */
  predicate NoOccurrence(s: string, pat: string, from: int)
  {
    forall k :: from <= k <= |s| ==> !OccursAt(s, pat, k)
  }

  /** `strstr(s + from, pat)`, as an index into `s`. */
  function FindFrom(s: string, pat: string, from: nat): (r: Option<nat>)
    requires |pat| > 0
    ensures r.Some? ==> FirstOccurrence(s, pat, from, r.value)
    ensures r.None? ==> NoOccurrence(s, pat, from)
    decreases |s| - from
  {
    if from + |pat| > |s| then None
    else if OccursAt(s, pat, from) then Some(from)
    else FindFrom(s, pat, from + 1)
  }

  /** The search result is determined by the characterisation. */
  lemma FindFromIs(s: string, pat: string, from: nat, j: nat)
    requires |pat| > 0 && FirstOccurrence(s, pat, from, j)
    ensures FindFrom(s, pat, from) == Some(j)
  {
  }

  /** Searching from `from` is searching the suffix that starts there. */
  lemma FindFromSuffix(s: string, pat: string, from: nat)
    requires |pat| > 0 && from <= |s|
    ensures FindFrom(s, pat, from) ==
      match FindFrom(s[from..], pat, 0)
      case None => None
      case Some(j) => Some(from + j)
  {
    var t := s[from..];
    forall k | from <= k <= |s|
      ensures OccursAt(s, pat, k) == OccursAt(t, pat, k - from)
    {
      assert forall j :: 0 <= j < |t| ==> t[j] == s[from + j];
    }
    match FindFrom(t, pat, 0)
    case None =>
    case Some(j) => FindFromIs(s, pat, from, from + j);
  }

  /** A search stops at an occurrence when no earlier position from the
      start holds the pattern's first character. */
  lemma FindAt(s: string, pat: string, from: nat, j: nat)
    requires |pat| > 0 && from <= j && OccursAt(s, pat, j)
    requires forall k :: from <= k < j ==> s[k] != pat[0]
    ensures FindFrom(s, pat, from) == Some(j)
  {
    forall k | from <= k < j
      ensures !OccursAt(s, pat, k)
    {
      assert s[k + 0] != pat[0];
    }
    FindFromIs(s, pat, from, j);
  }

  /** `j` is the first index at or after `from` holding `c`. */
  predicate FirstChar(s: string, c: char, from: int, j: int)
  {
    0 <= from <= j < |s| && s[j] == c && forall k :: from <= k < j ==> s[k] != c
  }

  /** `strchr(s + from, c)` for a non-terminator `c`, as an index into `s`. */
  function IndexFrom(s: string, c: char, from: nat): (r: Option<nat>)
    ensures r.Some? ==> FirstChar(s, c, from, r.value)
    ensures r.None? ==> forall k :: from <= k < |s| ==> s[k] != c
    decreases |s| - from
  {
    if from >= |s| then None
    else if s[from] == c then Some(from)
    else IndexFrom(s, c, from + 1)
  }

  lemma IndexFromIs(s: string, c: char, from: nat, j: nat)
    requires FirstChar(s, c, from, j)
    ensures IndexFrom(s, c, from) == Some(j)
  {
  }

  /** `j` is the last index in `[lo, hi)` holding `c`. */
  predicate LastChar(s: string, c: char, lo: int, hi: int, j: int)
  {
    0 <= lo <= j < hi <= |s| && s[j] == c && forall k :: j < k < hi ==> s[k] != c
  }

  /** The last `c` in `s[lo..hi]`; `strrchr(s, c)` is `LastBefore(s, c, 0, |s|)`. */
  function LastBefore(s: string, c: char, lo: nat, hi: nat): (r: Option<nat>)
    requires hi <= |s|
    ensures r.Some? ==> LastChar(s, c, lo, hi, r.value)
    ensures r.None? ==> forall k :: lo <= k < hi ==> s[k] != c
    decreases hi
  {
    if hi <= lo then None
    else if s[hi - 1] == c then Some(hi - 1)
    else LastBefore(s, c, lo, hi - 1)
  }

  lemma LastBeforeIs(s: string, c: char, lo: nat, hi: nat, j: nat)
    requires LastChar(s, c, lo, hi, j)
    ensures LastBefore(s, c, lo, hi) == Some(j)
  {
  }

  /** The kernel's `strnchr(s, n, c)` is non-NULL: `c` is among the first
      `n` characters of the string. */
  predicate OccursWithin(s: string, n: int, c: char)
  {
    exists k :: 0 <= k < n && k < |s| && s[k] == c
  }

  /** Fields separated by single `d` characters. */
  function Join(fields: seq<string>, d: char): string
    requires |fields| > 0
    decreases |fields|
  {
    if |fields| == 1 then fields[0] else fields[0] + [d] + Join(fields[1..], d)
  }

  /** The maximal `d`-free fields of `s`, in order. */
  function Split(s: string, d: char): (fields: seq<string>)
    ensures |fields| > 0
    ensures forall i :: 0 <= i < |fields| ==> d !in fields[i]
    ensures Join(fields, d) == s
    decreases |s|
  {
    match IndexFrom(s, d, 0)
    case None => [s]
    case Some(i) =>
      var rest := Split(s[i + 1..], d);
      assert ([s[..i]] + rest)[1..] == rest;
      assert s == s[..i] + [d] + s[i + 1..];
      [s[..i]] + rest
  }

  /** Splitting undoes joining `d`-free fields. */
  lemma {:induction false} SplitJoin(fields: seq<string>, d: char)
    requires |fields| > 0
    requires forall i :: 0 <= i < |fields| ==> d !in fields[i]
    ensures Split(Join(fields, d), d) == fields
    decreases |fields|
  {
    var s := Join(fields, d);
    if |fields| == 1 {
      assert IndexFrom(s, d, 0) == None;
    } else {
      var n := |fields[0]|;
      var rest := Join(fields[1..], d);
      assert s == fields[0] + [d] + rest;
      assert FirstChar(s, d, 0, n);
      assert IndexFrom(s, d, 0) == Some(n);
      assert s[..n] == fields[0];
      assert s[n + 1..] == rest;
      SplitJoin(fields[1..], d);
      assert fields == [fields[0]] + fields[1..];
    }
  }

  /** A character that is neither the separator nor in any field is not in the join. */
  lemma {:induction false} JoinAvoids(fields: seq<string>, d: char, c: char)
    requires |fields| > 0
    requires c != d
    requires forall i :: 0 <= i < |fields| ==> c !in fields[i]
    ensures c !in Join(fields, d)
    decreases |fields|
  {
    if |fields| > 1 {
      JoinAvoids(fields[1..], d, c);
    }
  }

  /** Joining two or more fields puts the separator right after the first one. */
  lemma JoinHasSeparator(fields: seq<string>, d: char)
    requires |fields| > 1
    ensures |fields[0]| < |Join(fields, d)| && Join(fields, d)[|fields[0]|] == d
  {
  }

  /** A bound on the length of a join from a bound on its fields. */
  lemma {:induction false} JoinLength(fields: seq<string>, d: char, m: nat)
    requires |fields| > 0
    requires forall i :: 0 <= i < |fields| ==> |fields[i]| <= m
    ensures |Join(fields, d)| + 1 <= |fields| * (m + 1)
    decreases |fields|
  {
    if |fields| > 1 {
      JoinLength(fields[1..], d, m);
      assert |fields| * (m + 1) == (|fields| - 1) * (m + 1) + (m + 1);
    }
  }

  /** A join whose first field is non-empty starts with that field's first character. */
  lemma JoinHead(fields: seq<string>, d: char)
    requires |fields| > 0 && |fields[0]| > 0
    ensures |Join(fields, d)| > 0 && Join(fields, d)[0] == fields[0][0]
  {
  }

  /** A join whose last field is non-empty ends with that field's last character. */
  lemma {:induction false} JoinLast(fields: seq<string>, d: char)
    requires |fields| > 0 && |fields[|fields| - 1]| > 0
    ensures var s := Join(fields, d); var f := fields[|fields| - 1];
      |s| > 0 && s[|s| - 1] == f[|f| - 1]
    decreases |fields|
  {
    if |fields| > 1 {
      JoinLast(fields[1..], d);
    }
  }

  /** When every field is non-empty and `d`-free, no two separators are adjacent. */
  lemma {:induction false} JoinNoDoubleSeparator(fields: seq<string>, d: char)
    requires |fields| > 0
    requires forall i :: 0 <= i < |fields| ==> |fields[i]| > 0 && d !in fields[i]
    ensures NoOccurrence(Join(fields, d), [d, d], 0)
    decreases |fields|
  {
    var s := Join(fields, d);
    if |fields| == 1 {
      forall k | 0 <= k <= |s|
        ensures !OccursAt(s, [d, d], k)
      {
        if k < |s| {
          assert s[k] in fields[0];
          assert [d, d][0] == d;
        }
      }
    } else {
      var rest := Join(fields[1..], d);
      var n := |fields[0]|;
      JoinNoDoubleSeparator(fields[1..], d);
      JoinHead(fields[1..], d);
      assert s == fields[0] + [d] + rest;
      forall k | 0 <= k <= |s|
        ensures !OccursAt(s, [d, d], k)
      {
        assert [d, d][0] == d && [d, d][1] == d;
        if k + 2 > |s| {
        } else if k < n {
          assert s[k] == fields[0][k] && s[k] in fields[0];
        } else if k == n {
          assert s[k + 1] == rest[0];
        } else {
          assert !OccursAt(rest, [d, d], k - n - 1);
          assert s[k] == rest[k - n - 1] && s[k + 1] == rest[k - n];
        }
      }
    }
  }
}
