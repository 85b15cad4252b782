/** String and path helpers with the meaning Rust's `str` and `Path` give them. */
module Strs {
  import opened Wrappers

  // ---------------------------------------------------------------------------
  // Trimming

  /** Rust's `char::is_whitespace`: the Unicode White_Space property. */
  predicate IsWhitespace(c: char) {
    c == ' ' || ('\t' <= c <= '\r') || c == '\U{0085}' || c == '\U{00A0}'
    || c == '\U{1680}' || ('\U{2000}' <= c <= '\U{200A}') || c == '\U{2028}'
    || c == '\U{2029}' || c == '\U{202F}' || c == '\U{205F}' || c == '\U{3000}'
  }

  predicate IsNul(c: char) { c == '\0' }

  /** Drops the leading characters that satisfy `drop`. */
  function TrimStartBy(s: string, drop: char -> bool): (r: string)
    ensures |r| <= |s| && r == s[|s| - |r|..]
    ensures forall k :: 0 <= k < |s| - |r| ==> drop(s[k])
    ensures r != [] ==> !drop(r[0])
  {
    if s != [] && drop(s[0]) then TrimStartBy(s[1..], drop) else s
  }

  /** Drops the trailing characters that satisfy `drop`. */
  function TrimEndBy(s: string, drop: char -> bool): (r: string)
    ensures |r| <= |s| && r == s[..|r|]
    ensures forall k :: |r| <= k < |s| ==> drop(s[k])
    ensures r != [] ==> !drop(r[|r| - 1])
  {
    if s != [] && drop(s[|s| - 1]) then TrimEndBy(s[..|s| - 1], drop) else s
  }

  /** `t` is `s` with the characters `drop` accepts stripped from both ends:
      a slice of `s` with only such characters around it and none at its ends. */
  ghost predicate TrimmedOf(s: string, t: string, drop: char -> bool) {
    && (exists i :: TrimmedAt(s, t, drop, i))
    && (t != [] ==> !drop(t[0]) && !drop(t[|t| - 1]))
  }

  /** `t` is the slice of `s` at `i`, with only characters `drop` accepts
      before and after it. */
  ghost predicate TrimmedAt(s: string, t: string, drop: char -> bool, i: int) {
    && 0 <= i && i + |t| <= |s| && t == s[i..i + |t|]
    && (forall k :: 0 <= k < i ==> drop(s[k]))
    && (forall k :: i + |t| <= k < |s| ==> drop(s[k]))
  }

  /** `trim_matches`: both ends stripped of the characters `drop` accepts. */
  function TrimBy(s: string, drop: char -> bool): (r: string)
    ensures TrimmedOf(s, r, drop)
  {
    var t := TrimStartBy(s, drop);
    var r := TrimEndBy(t, drop);
    TrimSuffixOfSuffix(s, t, r, drop);
    r
  }

  /** Trimming the end of what trimming the start left. */
  lemma TrimSuffixOfSuffix(s: string, t: string, r: string, drop: char -> bool)
    requires |t| <= |s| && t == s[|s| - |t|..]
    requires forall k :: 0 <= k < |s| - |t| ==> drop(s[k])
    requires t != [] ==> !drop(t[0])
    requires |r| <= |t| && r == t[..|r|]
    requires forall k :: |r| <= k < |t| ==> drop(t[k])
    requires r != [] ==> !drop(r[|r| - 1])
    ensures TrimmedOf(s, r, drop)
  {
    var i := |s| - |t|;
    forall k | i + |r| <= k < |s| ensures drop(s[k]) {
      assert s[k] == t[k - i];
    }
    if r != [] {
      assert r[0] == t[0];
    }
    assert TrimmedAt(s, r, drop, i);
  }

  /** A slice has no character its string lacks. */
  lemma SliceLacks(s: string, i: nat, n: nat, c: char)
    requires i + n <= |s| && c !in s
    ensures c !in s[i..i + n]
  {
    var t := s[i..i + n];
    forall k | 0 <= k < |t| ensures t[k] != c {
      assert t[k] == s[i + k];
    }
  }

  /** What trimming keeps is fixed by what `drop` accepts: two trimmings of the
      same string agree, so `TrimBy` is the only function meeting its contract. */
  lemma TrimmedOfUnique(s: string, t1: string, t2: string, drop: char -> bool)
    requires TrimmedOf(s, t1, drop) && TrimmedOf(s, t2, drop)
    ensures t1 == t2
  {
    var i1 :| TrimmedAt(s, t1, drop, i1);
    var i2 :| TrimmedAt(s, t2, drop, i2);
    if t1 != [] {
      assert s[i1] == t1[0] && s[i1 + |t1| - 1] == t1[|t1| - 1];
    }
    if t2 != [] {
      assert s[i2] == t2[0] && s[i2 + |t2| - 1] == t2[|t2| - 1];
    }
    if t1 != [] && t2 != [] {
      assert i1 == i2;
      assert |t1| == |t2|;
    }
  }

  /** `str::trim`. */
  function Trim(s: string): string {
    TrimBy(s, IsWhitespace)
  }

  // ---------------------------------------------------------------------------
  // Searching

  function IndexOf(s: string, c: char): (i: nat)
    requires c in s
    ensures i < |s| && s[i] == c && c !in s[..i]
  {
    if s[0] == c then 0 else 1 + IndexOf(s[1..], c)
  }

  /** The first `c` in `a + [c] + b` is the one after `a` when `a` has none. */
  lemma {:induction false} IndexOfAfter(a: string, c: char, b: string)
    requires c !in a
    ensures c in a + [c] + b && IndexOf(a + [c] + b, c) == |a|
  {
    var s := a + [c] + b;
    assert s[|a|] == c;
    if a != [] {
      assert s[1..] == a[1..] + [c] + b;
      IndexOfAfter(a[1..], c, b);
    }
  }

  /** Splitting `a + [c] + b` at `c`, when `a` has no `c`, yields `a` and
      then the pieces of `b`. */
  lemma SplitAfter(a: string, c: char, b: string)
    requires c !in a
    ensures Split(a + [c] + b, c) == [a] + Split(b, c)
  {
    var s := a + [c] + b;
    IndexOfAfter(a, c, b);
    assert s[..|a|] == a;
    assert s[|a| + 1..] == b;
  }

  predicate StartsWith(s: string, prefix: string) {
    |prefix| <= |s| && s[..|prefix|] == prefix
  }

  predicate EndsWith(s: string, suffix: string) {
    |suffix| <= |s| && s[|s| - |suffix|..] == suffix
  }

  predicate Contains(s: string, sub: string) {
    StartsWith(s, sub) || (s != [] && Contains(s[1..], sub))
  }

  /** The first position at which `pat` occurs in `s`. */
  function Find(s: string, pat: string): (r: Option<nat>)
    ensures r.Some? ==> r.value + |pat| <= |s| && s[r.value..r.value + |pat|] == pat
    ensures r.Some? ==> forall j :: 0 <= j < r.value ==> !StartsWith(s[j..], pat)
    ensures r.None? ==> forall j :: 0 <= j <= |s| ==> !StartsWith(s[j..], pat)
  {
    if StartsWith(s, pat) then Some(0)
    else if s == [] then None
    else
      var rest := Find(s[1..], pat);
      assert forall j :: 1 <= j <= |s| ==> s[j..] == s[1..][j - 1..];
      if rest.None? then None else Some(rest.value + 1)
  }

  /** `str::replacen(pat, with, 1)`: the first occurrence of `pat` is replaced. */
  function ReplaceFirst(s: string, pat: string, with: string): string {
    match Find(s, pat)
    case None => s
    case Some(i) => s[..i] + with + s[i + |pat|..]
  }

  /** Removing a prefix that is there leaves the rest of the string. */
  lemma RemovePrefix(s: string, pat: string)
    requires StartsWith(s, pat)
    ensures ReplaceFirst(s, pat, "") == s[|pat|..]
  {
  }

  // ---------------------------------------------------------------------------
  // Splitting and joining

  /** `str::split(sep)`: the pieces between separators, empty ones included. */
  function Split(s: string, sep: char): (r: seq<string>)
    ensures |r| >= 1
    ensures forall i :: 0 <= i < |r| ==> sep !in r[i]
    decreases |s|
  {
    if sep in s then
      var i := IndexOf(s, sep);
      [s[..i]] + Split(s[i + 1..], sep)
    else [s]
  }

  /** `[..].join(sep)`. */
  function Join(parts: seq<string>, sep: char): string {
    if |parts| == 0 then ""
    else if |parts| == 1 then parts[0]
    else parts[0] + [sep] + Join(parts[1..], sep)
  }

  /** Joining the pieces of a split gives the original string back. */
  lemma {:induction false} JoinSplit(s: string, sep: char)
    ensures Join(Split(s, sep), sep) == s
    decreases |s|
  {
    if sep in s {
      var i := IndexOf(s, sep);
      var rest := s[i + 1..];
      var tail := Split(rest, sep);
      var parts := [s[..i]] + tail;
      assert Split(s, sep) == parts;
      assert parts[1..] == tail;
      assert Join(parts, sep) == s[..i] + [sep] + Join(tail, sep);
      JoinSplit(rest, sep);
      assert s == s[..i] + [sep] + rest;
    }
  }

  /** The `:`-joined length: the parts plus one separator between each two. */
  lemma {:induction false} JoinLength(parts: seq<string>, sep: char)
    requires |parts| >= 1
    ensures |Join(parts, sep)| == SumLengths(parts) + |parts| - 1
  {
    if |parts| > 1 {
      JoinLength(parts[1..], sep);
    }
  }

  function SumLengths(parts: seq<string>): nat {
    if parts == [] then 0 else |parts[0]| + SumLengths(parts[1..])
  }

  /** `str::split_once(sep)`: the text before and after the first `sep`. */
  function SplitOnce(s: string, sep: char): (r: Option<(string, string)>)
    ensures r.None? <==> sep !in s
    ensures r.Some? ==> r.value.0 + [sep] + r.value.1 == s && sep !in r.value.0
  {
    if sep in s then
      var i := IndexOf(s, sep);
      assert s == s[..i] + [sep] + s[i + 1..];
      Some((s[..i], s[i + 1..]))
    else None
  }

  /** `str::lines`: split at `\n`, a `\r` right before it dropped, no final empty line. */
  function Lines(s: string): (r: seq<string>)
    ensures forall i :: 0 <= i < |r| ==> '\n' !in r[i]
    ensures s == [] <==> r == []
    decreases |s|
  {
    if s == [] then []
    else if '\n' in s then
      var i := IndexOf(s, '\n');
      var line := if i > 0 && s[i - 1] == '\r' then s[..i - 1] else s[..i];
      assert forall k :: 0 <= k < |line| ==> line[k] == s[k];
      [line] + Lines(s[i + 1..])
    else [s]
  }

  /** Replaces every `from` by the string `to`. */
  function ReplaceChar(s: string, from: char, to: string): (r: string)
    ensures from !in to ==> from !in r
  {
    if s == [] then []
    else (if s[0] == from then to else [s[0]]) + ReplaceChar(s[1..], from, to)
  }

  function Filter(xs: seq<string>, keep: string -> bool): (r: seq<string>)
    ensures forall i :: 0 <= i < |r| ==> keep(r[i])
    ensures forall i :: 0 <= i < |r| ==> r[i] in xs
    ensures forall x :: x in xs && keep(x) ==> x in r
  {
    if xs == [] then []
    else (if keep(xs[0]) then [xs[0]] else []) + Filter(xs[1..], keep)
  }

  /** `f` applied to every string, in order. */
  function MapStrings(xs: seq<string>, f: string -> string): (r: seq<string>)
    ensures |r| == |xs| && forall i :: 0 <= i < |r| ==> r[i] == f(xs[i])
  {
    if xs == [] then [] else [f(xs[0])] + MapStrings(xs[1..], f)
  }

  /** Every string trimmed. */
  function MapTrim(xs: seq<string>): (r: seq<string>)
    ensures |r| == |xs| && forall i :: 0 <= i < |r| ==> r[i] == Trim(xs[i])
  {
    MapStrings(xs, Trim)
  }

  // ---------------------------------------------------------------------------
  // Paths

  predicate IsAbsolute(p: string) {
    |p| > 0 && p[0] == '/'
  }

  /** `Path::join`: an absolute `b` replaces `a`; otherwise one `/` separates them. */
  function PathJoin(a: string, b: string): string {
    if IsAbsolute(b) then b
    else if a == [] || a[|a| - 1] == '/' then a + b
    else a + "/" + b
  }

  predicate IsNormalSegment(seg: string) {
    seg != "" && seg != "."
  }

  /** `Path::components`: a root marker for an absolute path, then the named segments. */
  function Components(p: string): seq<string> {
    (if IsAbsolute(p) then ["/"] else []) + Filter(Split(p, '/'), IsNormalSegment)
  }

  /** `Path::starts_with`: `base`'s components are a prefix of `p`'s. */
  predicate PathStartsWith(p: string, base: string) {
    var cp, cb := Components(p), Components(base);
    |cb| <= |cp| && cp[..|cb|] == cb
  }

  /** The last component's name, as `Path::file_name` gives it. */
  function FileName(p: string): Option<string> {
    var segs := Filter(Split(p, '/'), IsNormalSegment);
    if segs == [] then None else Some(segs[|segs| - 1])
  }

  /** `Path::parent`: the path without its last component, `None` for the
      root and for the empty path. */
  function Parent(p: string): (r: Option<string>)
    ensures r.None? <==> Components(p) == [] || Components(p) == ["/"]
  {
    var cs := Components(p);
    if cs == [] || cs == ["/"] then None
    else if cs[0] == "/" then Some("/" + Join(cs[1..|cs| - 1], '/'))
    else Some(Join(cs[..|cs| - 1], '/'))
  }

  // ---------------------------------------------------------------------------
  // Ordering: Rust's `Ord` on `String` is lexicographic on code points.

  predicate Below(a: string, b: string) {
    |a| == 0 || (|b| > 0 && (a[0] < b[0] || (a[0] == b[0] && Below(a[1..], b[1..]))))
  }

  predicate Less(a: string, b: string) {
    Below(a, b) && a != b
  }

  lemma {:induction false} BelowTotal(a: string, b: string)
    ensures Below(a, b) || Below(b, a)
  {
    if |a| > 0 && |b| > 0 && a[0] == b[0] {
      BelowTotal(a[1..], b[1..]);
    }
  }

  lemma {:induction false} BelowAntisymmetric(a: string, b: string)
    requires Below(a, b) && Below(b, a)
    ensures a == b
  {
    if |a| > 0 && |b| > 0 {
      BelowAntisymmetric(a[1..], b[1..]);
      assert a == [a[0]] + a[1..];
      assert b == [b[0]] + b[1..];
    }
  }

  lemma {:induction false} BelowTransitive(a: string, b: string, c: string)
    requires Below(a, b) && Below(b, c)
    ensures Below(a, c)
  {
    if |a| > 0 && |b| > 0 && |c| > 0 && a[0] == b[0] == c[0] {
      BelowTransitive(a[1..], b[1..], c[1..]);
    }
  }

  ghost predicate StrictlySorted(s: seq<string>) {
    forall i, j :: 0 <= i < j < |s| ==> Less(s[i], s[j])
  }

  function Elems(s: seq<string>): set<string> {
    set x | x in s
  }

  lemma ElemsEmpty(s: seq<string>)
    ensures Elems(s) == {} <==> s == []
  {
    if s != [] { assert s[0] in Elems(s); }
  }

  /** Inserts `x` into a strictly sorted sequence unless it is already there. */
  function Insert(s: seq<string>, x: string): (r: seq<string>)
    requires StrictlySorted(s)
    ensures StrictlySorted(r)
    ensures Elems(r) == Elems(s) + {x}
  {
    if s == [] then [x]
    else if x == s[0] then s
    else if Below(x, s[0]) then
      assert forall j :: 0 < j < |s| ==> Less(x, s[j]) by {
        forall j | 0 < j < |s| ensures Less(x, s[j]) {
          BelowTransitive(x, s[0], s[j]);
          if x == s[j] { BelowAntisymmetric(x, s[0]); }
        }
      }
      [x] + s
    else
      BelowTotal(x, s[0]);
      var t := Insert(s[1..], x);
      assert Elems(s) == {s[0]} + Elems(s[1..]);
      forall y | y in t ensures Less(s[0], y) {
        assert y in Elems(t);
        if y != x {
          assert y in Elems(s[1..]);
          var j :| 0 <= j < |s[1..]| && s[1..][j] == y;
          assert s[j + 1] == y;
        }
      }
      assert Elems([s[0]] + t) == {s[0]} + Elems(t);
      [s[0]] + t
  }

  /** `sort(); dedup();` in place on a vector of strings. */
  method SortDedup(xs: seq<string>) returns (r: seq<string>)
    ensures StrictlySorted(r)
    ensures Elems(r) == Elems(xs)
  {
    r := [];
    var i := 0;
    while i < |xs|
      invariant 0 <= i <= |xs|
      invariant StrictlySorted(r)
      invariant Elems(r) == Elems(xs[..i])
    {
      assert xs[..i + 1] == xs[..i] + [xs[i]];
      r := Insert(r, xs[i]);
      i := i + 1;
    }
    assert xs[..i] == xs;
  }

  /** Collects a hash set into a vector and sorts it. */
  method SortSet(s: set<string>) returns (r: seq<string>)
    ensures StrictlySorted(r)
    ensures Elems(r) == s
  {
    r := [];
    var rest := s;
    while rest != {}
      invariant StrictlySorted(r)
      invariant Elems(r) + rest == s
      decreases rest
    {
      var x :| x in rest;
      r := Insert(r, x);
      rest := rest - {x};
    }
  }

  /** A strictly sorted sequence is determined by its elements, so the output of
      `SortDedup` and `SortSet` does not depend on the input order. */
  lemma {:induction false} SortedUnique(a: seq<string>, b: seq<string>)
    requires StrictlySorted(a) && StrictlySorted(b)
    requires Elems(a) == Elems(b)
    ensures a == b
    decreases |a|
  {
    ElemsEmpty(a);
    ElemsEmpty(b);
    if a != [] && b != [] {
      assert b[0] in Elems(a);
      assert a[0] in Elems(b);
      if a[0] != b[0] {
        var i :| 0 <= i < |a| && a[i] == b[0];
        var j :| 0 <= j < |b| && b[j] == a[0];
        assert i > 0 && j > 0;
        assert Below(a[0], b[0]) && Below(b[0], a[0]);
        BelowAntisymmetric(a[0], b[0]);
      }
      assert Elems(a[1..]) == Elems(b[1..]) by {
        assert Elems(a) == {a[0]} + Elems(a[1..]);
        assert Elems(b) == {b[0]} + Elems(b[1..]);
        assert a[0] !in Elems(a[1..]);
        assert b[0] !in Elems(b[1..]);
      }
      SortedUnique(a[1..], b[1..]);
      assert a == [a[0]] + a[1..];
      assert b == [b[0]] + b[1..];
    }
  }

  /** Collects a hash set into a vector, in the set's own unspecified order:
      every element once. */
  method Enumerate(s: set<string>) returns (r: seq<string>)
    ensures Elems(r) == s
    ensures forall i, j :: 0 <= i < j < |r| ==> r[i] != r[j]
  {
    r := [];
    var rest := s;
    while rest != {}
      invariant Elems(r) + rest == s
      invariant Elems(r) !! rest
      invariant forall i, j :: 0 <= i < j < |r| ==> r[i] != r[j]
      decreases rest
    {
      var x :| x in rest;
      r := r + [x];
      rest := rest - {x};
    }
  }
}
