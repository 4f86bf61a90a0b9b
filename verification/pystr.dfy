/** The handful of Python string operations the process snapshot parser relies
    on, modelled exactly as CPython defines them: `str.strip()` with and
    without a character argument, `str.split(sep)` with a non-empty
    separator (and its inverse `sep.join`), and `f"{n}"` for a natural number.
 */
module PyStr {
  import opened Wrappers

  /** The characters for which Python's `str.isspace()` is true; `str.strip()`
      with no argument removes exactly these. */
  const Whitespace: set<char> :=
    { '\t', '\n', '\U{000B}', '\U{000C}', '\r',
      '\U{001C}', '\U{001D}', '\U{001E}', '\U{001F}', ' ',
      '\U{0085}', '\U{00A0}', '\U{1680}',
      '\U{2000}', '\U{2001}', '\U{2002}', '\U{2003}', '\U{2004}', '\U{2005}',
      '\U{2006}', '\U{2007}', '\U{2008}', '\U{2009}', '\U{200A}',
      '\U{2028}', '\U{2029}', '\U{202F}', '\U{205F}', '\U{3000}' }

  /** The first index at or after `i` whose character is not in `cs` (the
      length of `s` when there is none): where `strip` starts keeping. */
  function StripStart(s: string, cs: set<char>, i: nat): (n: nat)
    requires i <= |s|
    ensures i <= n <= |s|
    ensures forall k :: i <= k < n ==> s[k] in cs
    ensures n < |s| ==> s[n] !in cs
    decreases |s| - i
  {
    if i < |s| && s[i] in cs then StripStart(s, cs, i + 1) else i
  }

  /** Scanning down from `j` but not below `lo`, the end of the last
      character not in `cs`: where `strip` stops keeping. */
  function StripEnd(s: string, cs: set<char>, lo: nat, j: nat): (n: nat)
    requires lo <= j <= |s|
    ensures lo <= n <= j
    ensures forall k :: n <= k < j ==> s[k] in cs
    ensures n > lo ==> s[n - 1] !in cs
    decreases j
  {
    if j > lo && s[j - 1] in cs then StripEnd(s, cs, lo, j - 1) else j
  }

  /** `s.strip(cs)`: the middle of `s` once the leading and the trailing run
      of `cs` characters are removed. The result neither starts nor ends
      with a character of `cs`, and it is empty exactly when every character
      of `s` belongs to `cs`. */
  function Strip(s: string, cs: set<char>): (r: string)
    ensures exists i, j ::
      && 0 <= i <= j <= |s|
      && r == s[i..j]
      && (forall k :: 0 <= k < i ==> s[k] in cs)
      && (forall k :: j <= k < |s| ==> s[k] in cs)
    ensures |r| > 0 ==> r[0] !in cs && r[|r| - 1] !in cs
    ensures r == [] <==> forall k :: 0 <= k < |s| ==> s[k] in cs
  {
    var i := StripStart(s, cs, 0);
    var j := StripEnd(s, cs, i, |s|);
    assert forall k :: 0 <= k < i ==> s[k] in cs;
    s[i..j]
  }

  /** A string made only of whitespace (or empty). */
  predicate IsBlank(s: string) {
    forall k :: 0 <= k < |s| ==> s[k] in Whitespace
  }

  lemma StripIdempotent(s: string, cs: set<char>)
    ensures Strip(Strip(s, cs), cs) == Strip(s, cs)
  {
    var r := Strip(s, cs);
    if |r| > 0 {
      assert StripStart(r, cs, 0) == 0;
      assert StripEnd(r, cs, 0, |r|) == |r|;
      assert r[0..|r|] == r;
    }
  }

  /** Stripping a string that is wrapped in one `c` on each side, and whose
      own ends are not in `cs`, gives back exactly the wrapped string. */
  lemma StripWrapped(body: string, c: char, cs: set<char>)
    requires c in cs
    requires |body| > 0 && body[0] !in cs && body[|body| - 1] !in cs
    ensures Strip([c] + body + [c], cs) == body
  {
    var s := [c] + body + [c];
    assert s[0] == c && s[1] == body[0];
    assert StripStart(s, cs, 0) == 1;
    assert s[|s| - 1] == c && s[|s| - 2] == body[|body| - 1];
    assert StripEnd(s, cs, 1, |s|) == |s| - 1;
    assert s[1..|s| - 1] == body;
  }

  // ---------------------------------------------------------------------
  // Substring search and splitting
  // ---------------------------------------------------------------------

  /** `sep` occurs in `s` starting at index `i`. */
  predicate Occurs(s: string, sep: string, i: int) {
    0 <= i && i + |sep| <= |s| && s[i..i + |sep|] == sep
  }

  ghost predicate Contains(s: string, sep: string) {
    exists i :: Occurs(s, sep, i)
  }

  /** An occurrence of `sep` inside a slice is an occurrence in the whole. */
  lemma OccursInSlice(s: string, sep: string, i: int, j: int, k: int)
    requires 0 <= i <= j <= |s| && Occurs(s[i..j], sep, k)
    ensures Occurs(s, sep, i + k)
  {
    var t := s[i..j];
    var a, b := t[k..k + |sep|], s[i + k..i + k + |sep|];
    assert |a| == |b|;
    forall m | 0 <= m < |a|
      ensures a[m] == b[m]
    {
      assert a[m] == t[k + m] == s[i + k + m] == b[m];
    }
    assert a == b;
  }

  /** A slice of a string free of `sep` is free of `sep`. */
  lemma SliceFree(s: string, sep: string, i: int, j: int)
    requires 0 <= i <= j <= |s| && !Contains(s, sep)
    ensures !Contains(s[i..j], sep)
  {
    if Contains(s[i..j], sep) {
      var k :| Occurs(s[i..j], sep, k);
      OccursInSlice(s, sep, i, j, k);
      assert false;
    }
  }

  /** The least index at or after `i` where `sep` occurs in `s`. */
  function FindFrom(s: string, sep: string, i: nat): (r: Option<nat>)
    requires |sep| > 0 && i <= |s|
    ensures r.Some? ==> i <= r.value && Occurs(s, sep, r.value)
    ensures r.Some? ==> forall j :: i <= j < r.value ==> !Occurs(s, sep, j)
    ensures r.None? ==> forall j :: i <= j ==> !Occurs(s, sep, j)
    decreases |s| - i
  {
    if i + |sep| > |s| then None
    else if s[i..i + |sep|] == sep then Some(i)
    else FindFrom(s, sep, i + 1)
  }

  /** `sep.join(parts)` for a non-empty list of parts. */
  function Join(parts: seq<string>, sep: string): string
    requires |parts| >= 1
    decreases |parts|
  {
    if |parts| == 1 then parts[0] else parts[0] + sep + Join(parts[1..], sep)
  }

  /** `s.split(sep)` for a non-empty separator: the occurrences of `sep` are
      taken left to right without overlap. Joining the parts back gives `s`,
      no part contains `sep`, and the first part is the text before the
      first occurrence of `sep` (all of `s` when there is none); `SplitCuts`
      pins every later cut. */
  function Split(s: string, sep: string): (parts: seq<string>)
    requires |sep| > 0
    ensures |parts| >= 1
    ensures Join(parts, sep) == s
    ensures forall k :: 0 <= k < |parts| ==> !Contains(parts[k], sep)
    ensures |parts[0]| <= |s| && parts[0] == s[..|parts[0]|]
    ensures forall j :: 0 <= j < |parts[0]| ==> !Occurs(s, sep, j)
    ensures |parts[0]| == |s| || Occurs(s, sep, |parts[0]|)
    decreases |s|
  {
    match FindFrom(s, sep, 0)
    case None =>
      assert !Contains(s, sep);
      [s]
    case Some(k) =>
      var head := s[..k];
      var rest := Split(s[k + |sep|..], sep);
      var parts := [head] + rest;
      assert parts[1..] == rest;
      assert s == head + sep + s[k + |sep|..];
      assert !Contains(head, sep) by {
        if Contains(head, sep) {
          var j :| Occurs(head, sep, j);
          OccursInSlice(s, sep, 0, k, j);
          assert false;
        }
      }
      parts
  }

  /** `sep` starts at no position from `i` up to, not including, `e`,
      checked one position at a time (`NoneBetweenMeans` gives the
      quantified reading). */
  predicate NoneBetween(s: string, sep: string, i: int, e: int)
    decreases e - i
  {
    i >= e || (!Occurs(s, sep, i) && NoneBetween(s, sep, i + 1, e))
  }

  /** `e` is the first position at or after `i` where `sep` occurs. */
  predicate FirstAfter(s: string, sep: string, i: int, e: int) {
    i <= e && Occurs(s, sep, e) && NoneBetween(s, sep, i, e)
  }

  /** `sep` occurs nowhere at or after `i`. */
  predicate NoneAfter(s: string, sep: string, i: int) {
    NoneBetween(s, sep, i, |s|)
  }

  lemma {:induction false} NoneBetweenMeans(s: string, sep: string, i: int, e: int)
    ensures NoneBetween(s, sep, i, e) <==> forall j :: i <= j < e ==> !Occurs(s, sep, j)
    decreases e - i
  {
    if i < e {
      NoneBetweenMeans(s, sep, i + 1, e);
    }
  }

  /** The occurrence a search finds is the one `FirstAfter` names. */
  lemma {:induction false} FoundMeans(s: string, sep: string, i: nat, e: nat)
    requires |sep| > 0 && i <= |s| && FindFrom(s, sep, i) == Some(e)
    ensures FirstAfter(s, sep, i, e)
  {
    NoneBetweenMeans(s, sep, i, e);
  }

  /** A search finds nothing exactly when `NoneAfter` holds. */
  lemma {:induction false} NotFoundMeans(s: string, sep: string, i: nat)
    requires |sep| > 0 && i <= |s|
    ensures FindFrom(s, sep, i) == None <==> NoneAfter(s, sep, i)
  {
    NoneBetweenMeans(s, sep, i, |s|);
  }

  /** Walking `parts` through `s` from position `i`: each part but the last
      ends at the first occurrence of `sep` at or after its start, and the
      next part starts just past that occurrence; the last part runs to the
      end of `s`, and `sep` does not occur at or after its start. */
  predicate CutsFrom(s: string, sep: string, parts: seq<string>, i: int)
    requires |parts| >= 1
    decreases |parts|
  {
    if |parts| == 1 then i + |parts[0]| == |s| && NoneAfter(s, sep, i)
    else
      && FirstAfter(s, sep, i, i + |parts[0]|)
      && CutsFrom(s, sep, parts[1..], i + |parts[0]| + |sep|)
  }

  /** The parts of `split` are exactly what a left-to-right scan for
      non-overlapping occurrences of `sep` cuts out of `s`. */
  lemma SplitCuts(s: string, sep: string)
    requires |sep| > 0
    ensures CutsFrom(s, sep, Split(s, sep), 0)
  {
    SplitCutsFrom(s, sep, 0);
    assert s[0..] == s;
  }

  lemma {:induction false} SplitCutsFrom(s: string, sep: string, i: nat)
    requires |sep| > 0 && i <= |s|
    ensures CutsFrom(s, sep, Split(s[i..], sep), i)
    decreases |s| - i
  {
    var t := s[i..];
    match FindFrom(t, sep, 0)
    case None =>
      assert Split(t, sep) == [t];
      LastStep(s, sep, i);
    case Some(k) =>
      var head := t[..k];
      var j := i + |head| + |sep|;
      assert t[k + |sep|..] == s[j..];
      SplitCutsFrom(s, sep, j);
      FoundStep(s, sep, i, k, head);
      CutsStep(s, sep, i, head, Split(s[j..], sep), j);
      assert Split(t, sep) == [head] + Split(s[j..], sep);
  }

  /** The separator `","` overlaps itself: in `a","b",","c` the third
      candidate starts inside the second occurrence, so it is not a cut. */
  lemma SplitOverlapExample()
    ensures Split("a\",\"b\",\",\"c", "\",\"") == ["a", "b", ",\"c"]
  {
    var s, sep := "a\",\"b\",\",\"c", "\",\"";
    assert s[0..3][0] != sep[0] && s[1..4] == sep;
    assert FindFrom(s, sep, 0) == Some(1);
    var t := s[4..];
    assert t == "b\",\",\"c";
    assert t[0..3][0] != sep[0] && t[1..4] == sep;
    assert FindFrom(t, sep, 0) == Some(1);
    var u := t[4..];
    assert u == ",\"c";
    assert u[0..3][2] != sep[2];
    assert FindFrom(u, sep, 0) == None;
    assert Split(u, sep) == [u];
    assert t[..1] == "b";
    assert Split(t, sep) == ["b"] + Split(u, sep);
    assert s[..1] == "a";
    assert Split(s, sep) == ["a"] + Split(t, sep);
  }

  /** The end of the walk: no occurrence in the suffix from `i`. */
  lemma {:induction false} LastStep(s: string, sep: string, i: nat)
    requires |sep| > 0 && i <= |s| && FindFrom(s[i..], sep, 0) == None
    ensures CutsFrom(s, sep, [s[i..]], i)
  {
    var t := s[i..];
    NotFoundMeans(t, sep, 0);
    NoneAfterShift(s, sep, i, 0, i);
    assert [t][0] == t;
  }

  /** A first occurrence found in the suffix from `i`, in `s`'s positions. */
  lemma {:induction false} FoundStep(s: string, sep: string, i: nat, k: nat, head: string)
    requires |sep| > 0 && i <= |s| && FindFrom(s[i..], sep, 0) == Some(k)
    requires k <= |s| - i && head == s[i..][..k]
    ensures FirstAfter(s, sep, i, i + |head|)
  {
    var t := s[i..];
    FoundMeans(t, sep, 0, k);
    FirstAfterShift(s, sep, i, 0, k, i, i + |head|);
  }

  /** One step of the walk: a first occurrence found in the suffix from
      `i`, followed by a walk that starts just past it. */
  lemma {:induction false} CutsStep(s: string, sep: string, i: nat, head: string, rest: seq<string>, j: int)
    requires |rest| >= 1 && j == i + |head| + |sep|
    requires FirstAfter(s, sep, i, i + |head|)
    requires CutsFrom(s, sep, rest, j)
    ensures CutsFrom(s, sep, [head] + rest, i)
  {
    assert ([head] + rest)[1..] == rest;
  }

  /** An occurrence in the suffix `s[d..]` is an occurrence in `s`, `d`
      further on, and the other way round. */
  lemma {:induction false} OccursShift(s: string, sep: string, d: int, j: int)
    requires 0 <= d <= |s| && 0 <= j
    ensures Occurs(s[d..], sep, j) <==> Occurs(s, sep, d + j)
  {
    if Occurs(s, sep, d + j) {
      assert s[d..][j..j + |sep|] == s[d + j..d + j + |sep|];
    }
    if Occurs(s[d..], sep, j) {
      assert s[d..] == s[d..|s|];
      OccursInSlice(s, sep, d, |s|, j);
    }
  }

  lemma {:induction false} NoneBetweenShift(s: string, sep: string, d: int, o: int, e: int)
    requires 0 <= d <= |s| && 0 <= o && NoneBetween(s[d..], sep, o, e)
    ensures NoneBetween(s, sep, d + o, d + e)
    decreases e - o
  {
    if o < e {
      OccursShift(s, sep, d, o);
      NoneBetweenShift(s, sep, d, o + 1, e);
    }
  }

  lemma {:induction false} FirstAfterShift(s: string, sep: string, d: int, o: int, e: int, i: int, f: int)
    requires 0 <= d <= |s| && 0 <= o && FirstAfter(s[d..], sep, o, e)
    requires i == d + o && f == d + e
    ensures FirstAfter(s, sep, i, f)
  {
    OccursShift(s, sep, d, e);
    NoneBetweenShift(s, sep, d, o, e);
  }

  lemma {:induction false} NoneAfterShift(s: string, sep: string, d: int, o: int, i: int)
    requires 0 <= d <= |s| && 0 <= o && NoneAfter(s[d..], sep, o) && i == d + o
    ensures NoneAfter(s, sep, i)
  {
    NoneBetweenShift(s, sep, d, o, |s| - d);
  }

  /** No position of `s` before `n` can start `sep` when none of those
      characters is the first character of `sep`. */
  lemma {:induction false} FindSkips(s: string, sep: string, i: nat, n: nat)
    requires |sep| > 0 && i <= n <= |s|
    requires forall k :: i <= k < n ==> s[k] != sep[0]
    ensures FindFrom(s, sep, i) == FindFrom(s, sep, n)
    decreases n - i
  {
    if i < n {
      if i + |sep| <= |s| {
        assert s[i..i + |sep|][0] == s[i];
      }
      FindSkips(s, sep, i + 1, n);
    }
  }

  /** The other round trip: splitting the join of fields gives the fields
      back, provided no field holds the separator's first character. */
  lemma {:induction false} SplitJoin(fields: seq<string>, sep: string)
    requires |sep| > 0 && |fields| >= 1
    requires forall k :: 0 <= k < |fields| ==> sep[0] !in fields[k]
    ensures Split(Join(fields, sep), sep) == fields
    decreases |fields|
  {
    var s := Join(fields, sep);
    if |fields| > 1 {
      JoinFirstOccurrence(fields, sep);
      SplitJoin(fields[1..], sep);
      assert fields == [fields[0]] + fields[1..];
    } else {
      FindSkips(s, sep, 0, |s|);
    }
  }

  /** In the join of several fields, the first occurrence of the separator
      is the one right after the first field. */
  lemma JoinFirstOccurrence(fields: seq<string>, sep: string)
    requires |sep| > 0 && |fields| > 1 && sep[0] !in fields[0]
    ensures var s, f0 := Join(fields, sep), fields[0];
      && FindFrom(s, sep, 0) == Some(|f0|)
      && s[..|f0|] == f0
      && s[|f0| + |sep|..] == Join(fields[1..], sep)
  {
    var s, f0 := Join(fields, sep), fields[0];
    var rest := Join(fields[1..], sep);
    assert s == f0 + sep + rest;
    forall k | 0 <= k < |f0|
      ensures s[k] != sep[0]
    {
      assert s[k] == f0[k];
    }
    FindSkips(s, sep, 0, |f0|);
    assert s[|f0|..|f0| + |sep|] == sep;
    assert s[..|f0|] == f0;
    assert s[|f0| + |sep|..] == rest;
  }

  // ---------------------------------------------------------------------
  // Decimal rendering of counts
  // ---------------------------------------------------------------------

  predicate IsDigit(c: char) {
    '0' <= c <= '9'
  }

  function DigitChar(d: nat): (c: char)
    requires d < 10
    ensures IsDigit(c) && DigitValue(c) == d
  {
    ('0' as int + d) as char
  }

  function DigitValue(c: char): (d: nat)
    requires IsDigit(c)
    ensures d < 10
  {
    assert '0' as int <= c as int <= '9' as int;
    (c as int) - ('0' as int)
  }

  /** The value of a string of decimal digits (0 for the empty string). */
  function DecimalValue(s: string): nat
    requires forall k :: 0 <= k < |s| ==> IsDigit(s[k])
    decreases |s|
  {
    if |s| == 0 then 0
    else DecimalValue(s[..|s| - 1]) * 10 + DigitValue(s[|s| - 1])
  }

  /** `f"{n}"`: the decimal digits of `n`, without leading zeros, reading
      back as `n`. */
  function NatToString(n: nat): (r: string)
    ensures |r| >= 1
    ensures forall k :: 0 <= k < |r| ==> IsDigit(r[k])
    ensures r[0] == '0' ==> n == 0 && |r| == 1
    ensures DecimalValue(r) == n
    decreases n
  {
    if n < 10 then [DigitChar(n)]
    else
      var r := NatToString(n / 10) + [DigitChar(n % 10)];
      assert r[..|r| - 1] == NatToString(n / 10);
      r
  }
}
