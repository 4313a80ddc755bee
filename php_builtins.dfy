/**
  * The PHP built-ins the controller relies on, as total functions on strings and sequences:
  * `trim` with an explicit character list, `explode` and its inverse `implode`, `empty` on a
  * string and the order-preserving `array_filter`.
  */
module PhpBuiltins {

  /** The list '\' \t\n\r\0\x0B' (single-quoted): only \' is an escape, so the backslash and the
    * letters t, n, r, x, B and the digit 0 are stripped, and no tab or newline is. */
  const SearchTermTrimChars: set<char> := {'\'', ' ', '\\', 't', 'n', 'r', '0', 'x', 'B'}

  /** The list "' \t\n\r\0\x0B" (double-quoted): the quote, space, tab, line feed, carriage
    * return, NUL and vertical tab. */
  const IdTrimChars: set<char> := {'\'', ' ', '\t', '\n', '\r', '\0', '\U{B}'}

  /** PHP's default character list for `trim`: " \t\n\r\0\x0B". */
  const DefaultTrimChars: set<char> := {' ', '\t', '\n', '\r', '\0', '\U{B}'}

  /** The index of the first character at or after `lo` that is not in `cs` (or `|s|`). */
  function SkipLeading(s: string, cs: set<char>, lo: nat): (k: nat)
    requires lo <= |s|
    ensures lo <= k <= |s|
    ensures forall i :: lo <= i < k ==> s[i] in cs
    ensures k < |s| ==> s[k] !in cs
    decreases |s| - lo
  {
    if lo < |s| && s[lo] in cs then SkipLeading(s, cs, lo + 1) else lo
  }

  /** The end of `s[lo..hi]` once its trailing characters of `cs` are dropped. */
  function SkipTrailing(s: string, cs: set<char>, lo: nat, hi: nat): (k: nat)
    requires lo <= hi <= |s|
    ensures lo <= k <= hi
    ensures forall i :: k <= i < hi ==> s[i] in cs
    ensures k > lo ==> s[k - 1] !in cs
    decreases hi - lo
  {
    if hi > lo && s[hi - 1] in cs then SkipTrailing(s, cs, lo, hi - 1) else hi
  }

  /** `trim($s, $cs)`: the result is the middle of `s` once every leading and trailing
    * character of `cs` is stripped; only characters of `cs` are removed, and the result
    * neither starts nor ends with one. */
  function Trim(s: string, cs: set<char>): (r: string)
    ensures r == [] || (r[0] !in cs && r[|r| - 1] !in cs)
    ensures exists lo :: IsTrimmedAt(s, cs, lo, r)
  {
    var lo := SkipLeading(s, cs, 0);
    var hi := SkipTrailing(s, cs, lo, |s|);
    assert IsTrimmedAt(s, cs, lo, s[lo..hi]);
    s[lo..hi]
  }

  /** `r` is the slice of `s` that starts at `lo`, and every character of `s` before or after
    * that slice belongs to `cs`. */
  ghost predicate IsTrimmedAt(s: string, cs: set<char>, lo: int, r: string) {
    0 <= lo <= |s| - |r|
    && r == s[lo..lo + |r|]
    && (forall i :: 0 <= i < lo ==> s[i] in cs)
    && (forall i :: lo + |r| <= i < |s| ==> s[i] in cs)
  }

  /** Trimming gives the empty string exactly when every character of `s` is in `cs`. */
  lemma TrimEmptyIffAllTrimmed(s: string, cs: set<char>)
    ensures Trim(s, cs) == "" <==> forall i :: 0 <= i < |s| ==> s[i] in cs
  {
    var r := Trim(s, cs);
    var lo :| IsTrimmedAt(s, cs, lo, r);
    if r != "" {
      assert r[0] == s[lo];
    }
  }

  /** A string wrapped in one trimmed character on each side, and not itself starting or ending
    * with one, trims back to itself. */
  lemma TrimUnwraps(c: char, inner: string, cs: set<char>)
    requires c in cs
    requires inner != [] && inner[0] !in cs && inner[|inner| - 1] !in cs
    ensures Trim([c] + inner + [c], cs) == inner
  {
    var s := [c] + inner + [c];
    assert SkipLeading(s, cs, 1) == 1;
    assert SkipLeading(s, cs, 0) == 1;
    assert SkipTrailing(s, cs, 1, |s| - 1) == |s| - 1;
    assert SkipTrailing(s, cs, 1, |s|) == |s| - 1;
    assert s[1..|s| - 1] == inner;
  }

  /** Trimming leaves `s` unchanged exactly when it neither starts nor ends with a character of `cs`. */
  lemma {:induction false} TrimIsIdentityIff(s: string, cs: set<char>)
    ensures Trim(s, cs) == s <==> (s == [] || (s[0] !in cs && s[|s| - 1] !in cs))
  {
    var r := Trim(s, cs);
    if r == s {
      assert s == [] || (s[0] !in cs && s[|s| - 1] !in cs);
    }
    if s != [] && s[0] !in cs && s[|s| - 1] !in cs {
      assert SkipLeading(s, cs, 0) == 0;
      assert SkipTrailing(s, cs, 0, |s|) == |s|;
      assert s[0..|s|] == s;
    }
  }

  /** Trimming twice is trimming once. */
  lemma {:induction false} TrimIdempotent(s: string, cs: set<char>)
    ensures Trim(Trim(s, cs), cs) == Trim(s, cs)
  {
    TrimIsIdentityIff(Trim(s, cs), cs);
  }

  /** `implode($d, $parts)`. */
  function Implode(parts: seq<string>, d: char): (s: string)
    decreases |parts|
  {
    if parts == [] then ""
    else if |parts| == 1 then parts[0]
    else parts[0] + [d] + Implode(parts[1..], d)
  }

  /** `explode($d, $s)`: never empty (an empty string gives one empty part), no part holds the
    * delimiter, there is one part more than there are delimiters, and joining the parts again
    * gives back `s`. */
  function Explode(s: string, d: char): (parts: seq<string>)
    ensures |parts| >= 1
    ensures |parts| == multiset(s)[d] + 1
    ensures forall i :: 0 <= i < |parts| ==> d !in parts[i]
    ensures Implode(parts, d) == s
    decreases |s|
  {
    if s == [] then [""]
    else
      var rest := Explode(s[1..], d);
      if s[0] == d then
        ExplodeDelimiterHead(s, d, rest);
        [""] + rest
      else
        ExplodeCharHead(s, d, rest);
        [[s[0]] + rest[0]] + rest[1..]
  }

  /** `parts` has the four properties `Explode` promises for `s`. */
  ghost predicate IsExplosion(parts: seq<string>, s: string, d: char) {
    && |parts| >= 1
    && |parts| == multiset(s)[d] + 1
    && (forall i :: 0 <= i < |parts| ==> d !in parts[i])
    && Implode(parts, d) == s
  }

  /** A leading delimiter opens an empty first part. */
  lemma ExplodeDelimiterHead(s: string, d: char, rest: seq<string>)
    requires s != [] && s[0] == d
    requires IsExplosion(rest, s[1..], d)
    ensures IsExplosion([""] + rest, s, d)
  {
    CountAfterHead(s, d);
    ImplodeEmptyHead(rest, d);
    var parts := [""] + rest;
    assert forall i :: 1 <= i < |parts| ==> parts[i] == rest[i - 1];
    assert [s[0]] + s[1..] == s;
  }

  /** Any other leading character joins the first part. */
  lemma ExplodeCharHead(s: string, d: char, rest: seq<string>)
    requires s != [] && s[0] != d
    requires IsExplosion(rest, s[1..], d)
    ensures IsExplosion([[s[0]] + rest[0]] + rest[1..], s, d)
  {
    CountAfterHead(s, d);
    ImplodeCharHead(s[0], rest, d);
    var parts := [[s[0]] + rest[0]] + rest[1..];
    assert forall i :: 1 <= i < |parts| ==> parts[i] == rest[i];
    assert d !in parts[0];
    assert [s[0]] + s[1..] == s;
  }

  lemma CountAfterHead(s: string, d: char)
    requires s != []
    ensures multiset(s)[d] == multiset(s[1..])[d] + (if s[0] == d then 1 else 0)
  {
    assert s == [s[0]] + s[1..];
  }

  lemma ImplodeEmptyHead(rest: seq<string>, d: char)
    requires |rest| >= 1
    ensures Implode([""] + rest, d) == [d] + Implode(rest, d)
  {
    assert ([""] + rest)[1..] == rest;
  }

  lemma ImplodeCharHead(c: char, rest: seq<string>, d: char)
    requires |rest| >= 1
    ensures Implode([[c] + rest[0]] + rest[1..], d) == [c] + Implode(rest, d)
  {
    var parts := [[c] + rest[0]] + rest[1..];
    if |rest| > 1 {
      assert parts[1..] == rest[1..];
    }
  }

  /** A string without the delimiter explodes to itself. */
  lemma {:induction false} ExplodeWithoutDelimiter(p: string, d: char)
    requires d !in p
    ensures Explode(p, d) == [p]
    decreases |p|
  {
    if p != [] {
      ExplodeWithoutDelimiter(p[1..], d);
    }
  }

  /** Exploding `p + [d] + t` splits off `p` as the first part. */
  lemma {:induction false} ExplodeSplitsAtDelimiter(p: string, t: string, d: char)
    requires d !in p
    ensures Explode(p + [d] + t, d) == [p] + Explode(t, d)
    decreases |p|
  {
    var s := p + [d] + t;
    if p != [] {
      assert s[0] == p[0] && s[0] != d;
      assert s[1..] == p[1..] + [d] + t;
      ExplodeSplitsAtDelimiter(p[1..], t, d);
      assert [p[0]] + p[1..] == p;
    } else {
      assert s[0] == d;
      assert s[1..] == t;
    }
  }

  /** `explode` inverts `implode` on parts that do not hold the delimiter. */
  lemma {:induction false} ExplodeImplode(parts: seq<string>, d: char)
    requires |parts| >= 1
    requires forall i :: 0 <= i < |parts| ==> d !in parts[i]
    ensures Explode(Implode(parts, d), d) == parts
    decreases |parts|
  {
    if |parts| == 1 {
      ExplodeWithoutDelimiter(parts[0], d);
    } else {
      var tail := Implode(parts[1..], d);
      assert Implode(parts, d) == parts[0] + [d] + tail;
      ExplodeImplode(parts[1..], d);
      ExplodeSplitsAtDelimiter(parts[0], tail, d);
      assert [parts[0]] + parts[1..] == parts;
    }
  }

  /** Joining two imploded lists with the delimiter implodes their concatenation. */
  lemma {:induction false} ImplodeAppend(a: seq<string>, b: seq<string>, d: char)
    requires |a| >= 1 && |b| >= 1
    ensures Implode(a + b, d) == Implode(a, d) + [d] + Implode(b, d)
    decreases |a|
  {
    if |a| > 1 {
      assert (a + b)[1..] == a[1..] + b;
      ImplodeAppend(a[1..], b, d);
    } else {
      assert (a + b)[1..] == b;
    }
  }

  /** Exploding `x + [d] + y` explodes `x` and `y` and puts the parts one after the other. */
  lemma ExplodeConcat(x: string, y: string, d: char)
    ensures Explode(x + [d] + y, d) == Explode(x, d) + Explode(y, d)
  {
    var parts := Explode(x, d) + Explode(y, d);
    ImplodeAppend(Explode(x, d), Explode(y, d), d);
    assert forall i :: 0 <= i < |parts| ==> d !in parts[i] by {
      forall i | 0 <= i < |parts| ensures d !in parts[i] {
        if i >= |Explode(x, d)| {
          assert parts[i] == Explode(y, d)[i - |Explode(x, d)|];
        }
      }
    }
    ExplodeImplode(parts, d);
  }

  /** PHP `empty()` on a string: true for "" and for "0". */
  predicate IsEmpty(s: string) {
    s == "" || s == "0"
  }

  /** `array_filter($s, $keep)` iterated with `foreach`: the kept elements in their original order. */
  function ArrayFilter<T(==)>(s: seq<T>, keep: T -> bool): (r: seq<T>)
    ensures |r| <= |s|
    ensures forall i :: 0 <= i < |r| ==> r[i] in s && keep(r[i])
    ensures forall i :: 0 <= i < |s| && keep(s[i]) ==> s[i] in r
    decreases |s|
  {
    if s == [] then []
    else
      var init := s[..|s| - 1];
      assert s == init + [s[|s| - 1]];
      ArrayFilter(init, keep) + (if keep(s[|s| - 1]) then [s[|s| - 1]] else [])
  }

  /** Filtering distributes over concatenation, so it keeps the original order. */
  lemma {:induction false} ArrayFilterAppend<T>(a: seq<T>, b: seq<T>, keep: T -> bool)
    ensures ArrayFilter(a + b, keep) == ArrayFilter(a, keep) + ArrayFilter(b, keep)
    decreases |b|
  {
    if b != [] {
      var b' := b[..|b| - 1];
      assert (a + b)[..|a + b| - 1] == a + b';
      ArrayFilterAppend(a, b', keep);
    } else {
      assert a + b == a;
    }
  }

  /** Every kept element is kept as often as it occurs: duplicates survive. */
  lemma {:induction false} ArrayFilterMultiplicity<T>(s: seq<T>, keep: T -> bool, x: T)
    ensures multiset(ArrayFilter(s, keep))[x] == if keep(x) then multiset(s)[x] else 0
    decreases |s|
  {
    if s != [] {
      var init := s[..|s| - 1];
      assert s == init + [s[|s| - 1]];
      ArrayFilterMultiplicity(init, keep, x);
    }
  }
}
