/** String primitives with the meaning JavaScript gives them: the whitespace
    set of `String.prototype.trim` and of the regular-expression class `\s`,
    `trim`, `split` on one character, and prefix tests. */
module Text {
  import Base

  /** WhiteSpace and LineTerminator code points of ECMAScript (section 12.2 and
      12.3 of ECMA-262): the characters `trim` removes and `\s` matches. */
  predicate IsWhitespace(c: char) {
    || c == '\t' || c == '\n' || c == '\U{000B}' || c == '\U{000C}' || c == '\r'
    || c == ' ' || c == '\U{00A0}' || c == '\U{1680}'
    || ('\U{2000}' <= c <= '\U{200A}')
    || c == '\U{2028}' || c == '\U{2029}' || c == '\U{202F}' || c == '\U{205F}'
    || c == '\U{3000}' || c == '\U{FEFF}'
  }

  /** The characters a regular-expression `.` does not match. */
  predicate IsLineTerminator(c: char) {
    c == '\n' || c == '\r' || c == '\U{2028}' || c == '\U{2029}'
  }

  predicate IsAsciiDigit(c: char) {
    '0' <= c <= '9'
  }

  predicate IsAsciiLetter(c: char) {
    'a' <= c <= 'z' || 'A' <= c <= 'Z'
  }

  predicate AllWhitespace(s: string) {
    forall i :: 0 <= i < |s| ==> IsWhitespace(s[i])
  }

  predicate StartsWith(s: string, prefix: string) {
    |prefix| <= |s| && s[..|prefix|] == prefix
  }

  /** Number of whitespace characters at the start of `s`. */
  function LeadingWhitespace(s: string): (n: nat)
    ensures n <= |s|
  {
    if s == [] || !IsWhitespace(s[0]) then 0 else 1 + LeadingWhitespace(s[1..])
  }

  /** Number of whitespace characters at the end of `s`. */
  function TrailingWhitespace(s: string): (n: nat)
    ensures n <= |s|
  {
    if s == [] || !IsWhitespace(s[|s| - 1]) then 0 else 1 + TrailingWhitespace(s[..|s| - 1])
  }

  lemma AllWhitespaceAppend(a: string, b: string)
    ensures AllWhitespace(a + b) <==> AllWhitespace(a) && AllWhitespace(b)
  {
    assert forall k :: 0 <= k < |a| ==> (a + b)[k] == a[k];
    assert forall k :: 0 <= k < |b| ==> (a + b)[|a| + k] == b[k];
  }

  /** The leading whitespace is a run of whitespace that stops at the first
      other character. */
  lemma {:induction false} LeadingWhitespaceSpec(s: string)
    ensures AllWhitespace(s[..LeadingWhitespace(s)])
    ensures LeadingWhitespace(s) < |s| ==> !IsWhitespace(s[LeadingWhitespace(s)])
  {
    if s != [] && IsWhitespace(s[0]) {
      var k := LeadingWhitespace(s[1..]);
      LeadingWhitespaceSpec(s[1..]);
      ConsPrefix(s, k);
      AllWhitespaceAppend([s[0]], s[1..][..k]);
    }
  }

  /** The trailing whitespace is a run of whitespace that stops at the last
      other character. */
  lemma {:induction false} TrailingWhitespaceSpec(s: string)
    ensures AllWhitespace(s[|s| - TrailingWhitespace(s)..])
    ensures TrailingWhitespace(s) < |s| ==> !IsWhitespace(s[|s| - TrailingWhitespace(s) - 1])
  {
    if s != [] && IsWhitespace(s[|s| - 1]) {
      var init := s[..|s| - 1];
      var k := TrailingWhitespace(init);
      TrailingWhitespaceSpec(init);
      SnocSuffix(s, k);
      AllWhitespaceAppend(init[|init| - k..], [s[|s| - 1]]);
    }
  }

  lemma PrefixWhitespace(s: string, n: nat)
    requires n <= |s| && AllWhitespace(s[..n])
    ensures forall k :: 0 <= k < n ==> IsWhitespace(s[k])
  {
    assert forall k :: 0 <= k < n ==> s[..n][k] == s[k];
  }

  lemma SuffixWhitespace(s: string, n: nat)
    requires n <= |s| && AllWhitespace(s[|s| - n..])
    ensures forall k :: |s| - n <= k < |s| ==> IsWhitespace(s[k])
  {
    assert forall k :: |s| - n <= k < |s| ==> s[|s| - n..][k - (|s| - n)] == s[k];
  }

  /** Where the trimmed part of `s` begins. */
  function TrimFrom(s: string): (i: nat)
    ensures i <= |s|
  {
    LeadingWhitespace(s)
  }

  /** Where the trimmed part of `s` ends: before the trailing whitespace, or
      at the end when the string is all whitespace. */
  function TrimTo(s: string): (j: nat)
    ensures TrimFrom(s) <= j <= |s|
  {
    var i, k := TrimFrom(s), TrailingWhitespace(s);
    if i == |s| then |s|
    else
      LeadingWhitespaceSpec(s);
      TrailingWhitespaceSpec(s);
      SuffixWhitespace(s, k);
      |s| - k
  }

  /** `String.prototype.trim`: the middle of `s` once whitespace is taken off
      both ends. */
  function Trim(s: string): (r: string)
    ensures |r| <= |s|
  {
    s[TrimFrom(s)..TrimTo(s)]
  }

  /** What `trim` takes off is whitespace, and what it keeps starts and ends
      with something else. */
  lemma TrimShape(s: string)
    ensures AllWhitespace(s[..TrimFrom(s)]) && AllWhitespace(s[TrimTo(s)..])
    ensures Trim(s) != [] ==> !IsWhitespace(Trim(s)[0]) && !IsWhitespace(Trim(s)[|Trim(s)| - 1])
  {
    LeadingWhitespaceSpec(s);
    TrailingWhitespaceSpec(s);
    if TrimFrom(s) == |s| {
      assert s[|s|..] == [];
    }
  }

  /** `n` whitespace characters followed by something else (or nothing) is
      exactly the leading whitespace. */
  lemma LeadingWhitespaceIs(s: string, n: nat)
    requires n <= |s| && AllWhitespace(s[..n])
    requires n < |s| ==> !IsWhitespace(s[n])
    ensures LeadingWhitespace(s) == n
  {
    LeadingWhitespaceSpec(s);
    PrefixWhitespace(s, n);
    PrefixWhitespace(s, LeadingWhitespace(s));
  }

  /** Likewise at the end. */
  lemma TrailingWhitespaceIs(s: string, n: nat)
    requires n <= |s| && AllWhitespace(s[|s| - n..])
    requires n < |s| ==> !IsWhitespace(s[|s| - n - 1])
    ensures TrailingWhitespace(s) == n
  {
    TrailingWhitespaceSpec(s);
    SuffixWhitespace(s, n);
    SuffixWhitespace(s, TrailingWhitespace(s));
  }

  /** `trim` is determined by its shape: whenever a string is written as
      whitespace, a core with non-whitespace ends, and whitespace, the core
      is what `trim` returns. */
  lemma TrimUnique(s: string, lead: string, core: string, trail: string)
    requires s == lead + core + trail
    requires AllWhitespace(lead) && AllWhitespace(trail)
    requires core != [] ==> !IsWhitespace(core[0]) && !IsWhitespace(core[|core| - 1])
    ensures Trim(s) == core
  {
    AllWhitespaceAppend(lead, trail);
    if core == [] {
      assert s == lead + trail && s[..|s|] == s;
      LeadingWhitespaceIs(s, |s|);
    } else {
      var a, b := |lead|, |lead| + |core|;
      assert s[..a] == lead && s[a] == core[0];
      LeadingWhitespaceIs(s, a);
      assert s[b..] == trail && s[b - 1] == core[|core| - 1];
      TrailingWhitespaceIs(s, |trail|);
      assert s[a..b] == core;
    }
  }

  /** `trim` leaves nothing more to trim. */
  lemma TrimIdempotent(s: string)
    ensures Trim(Trim(s)) == Trim(s)
  {
    var t := Trim(s);
    TrimShape(s);
    assert t == [] + t + [];
    TrimUnique(t, [], t, []);
  }

  /** Whitespace added around a string does not change what `trim` yields. */
  lemma TrimIgnoresPadding(lead: string, s: string, trail: string)
    requires AllWhitespace(lead) && AllWhitespace(trail)
    ensures Trim(lead + s + trail) == Trim(s)
  {
    var i, j := TrimFrom(s), TrimTo(s);
    var l, t := lead + s[..i], s[j..] + trail;
    TrimShape(s);
    Regroup(lead, s, i, j, trail);
    AllWhitespaceAppend(lead, s[..i]);
    AllWhitespaceAppend(s[j..], trail);
    TrimUnique(lead + s + trail, l, Trim(s), t);
  }

  /** A string of whitespace trims to nothing. */
  lemma TrimBlank(w: string)
    requires AllWhitespace(w)
    ensures Trim(w) == []
  {
    assert w == w + [] + [];
    TrimUnique(w, w, [], []);
  }

  /** A character that is not whitespace occurs in no run of whitespace. */
  lemma WhitespaceLacks(w: string, c: char)
    requires AllWhitespace(w) && !IsWhitespace(c)
    ensures c !in w
  {
  }

  /** `s.split(sep)` for a one-character separator: the pieces between
      separators, in order; there is always at least one piece. */
  function Split(s: string, sep: char): (parts: seq<string>)
    ensures |parts| >= 1
  {
    if s == [] then [""]
    else
      var rest := Split(s[1..], sep);
      if s[0] == sep then [""] + rest
      else [[s[0]] + rest[0]] + rest[1..]
  }

  /** No piece holds the separator. */
  lemma {:induction false} SplitPieces(s: string, sep: char)
    ensures forall k :: 0 <= k < |Split(s, sep)| ==> sep !in Split(s, sep)[k]
  {
    if s != [] {
      SplitPieces(s[1..], sep);
    }
  }

  /** Joining the pieces with the separator gives the string back. */
  lemma {:induction false} SplitThenJoin(s: string, sep: char)
    ensures Join(Split(s, sep), sep) == s
  {
    if s != [] {
      var rest := Split(s[1..], sep);
      SplitThenJoin(s[1..], sep);
      if s[0] == sep {
        assert ([""] + rest)[1..] == rest;
      } else {
        var parts := [[s[0]] + rest[0]] + rest[1..];
        assert parts[1..] == rest[1..];
        if |rest| > 1 {
          assert Join(parts, sep) == parts[0] + [sep] + Join(rest[1..], sep);
        }
      }
    }
  }

  /** `parts.join(sep)`. */
  function Join(parts: seq<string>, sep: char): string
    requires |parts| >= 1
  {
    if |parts| == 1 then parts[0] else parts[0] + [sep] + Join(parts[1..], sep)
  }

  /** Splitting a string with no separator gives the string back whole. */
  lemma {:induction false} SplitWithoutSeparator(s: string, sep: char)
    requires sep !in s
    ensures Split(s, sep) == [s]
  {
    if s != [] {
      SplitWithoutSeparator(s[1..], sep);
      assert [s[0]] + s[1..] == s;
    }
  }

  /** One step of `Split`: the pieces of `c` followed by `s`. */
  lemma SplitCons(c: char, s: string, sep: char)
    ensures Split([c] + s, sep)
         == if c == sep then [""] + Split(s, sep)
            else [[c] + Split(s, sep)[0]] + Split(s, sep)[1..]
  {
    assert ([c] + s)[1..] == s;
  }

  /** Splitting distributes over a separator: the pieces of `a + sep + b` are
      the pieces of `a` followed by the pieces of `b`. */
  lemma {:induction false} SplitAppend(a: string, sep: char, b: string)
    ensures Split(a + [sep] + b, sep) == Split(a, sep) + Split(b, sep)
  {
    if a == [] {
      EmptyAround(a, sep, b);
      SplitCons(sep, b, sep);
    } else {
      var c, tail := a[0], a[1..];
      ConsAround(a, sep, b);
      SplitCons(c, tail + [sep] + b, sep);
      SplitCons(c, tail, sep);
      SplitAppend(tail, sep, b);
      if c == sep {
        AppendAssoc([""], Split(tail, sep), Split(b, sep));
      } else {
        GlueHead(c, Split(tail, sep), Split(b, sep));
      }
    }
  }

  /** Joining pieces that hold no separator and splitting again gives the
      pieces back: Split is the inverse of Join on such pieces. */
  lemma {:induction false} JoinThenSplit(parts: seq<string>, sep: char)
    requires |parts| >= 1
    requires forall k :: 0 <= k < |parts| ==> sep !in parts[k]
    ensures Split(Join(parts, sep), sep) == parts
  {
    SplitWithoutSeparator(parts[0], sep);
    if |parts| > 1 {
      JoinThenSplit(parts[1..], sep);
      SplitAppend(parts[0], sep, Join(parts[1..], sep));
      assert [parts[0]] + parts[1..] == parts;
    }
  }

  /** `s.indexOf(c)`: the first position of `c`, if any. */
  function IndexOf(s: string, c: char): (r: Base.Option<nat>)
    ensures r.Some? ==> r.value < |s| && s[r.value] == c
                        && forall k :: 0 <= k < r.value ==> s[k] != c
    ensures r.None? ==> c !in s
  {
    if s == [] then Base.None
    else if s[0] == c then Base.Some(0)
    else match IndexOf(s[1..], c)
      case None => Base.None
      case Some(k) => Base.Some(k + 1)
  }

  /** `s.lastIndexOf(c)`: the last position of `c`, if any. */
  function LastIndexOf(s: string, c: char): (r: Base.Option<nat>)
    ensures r.Some? ==> r.value < |s| && s[r.value] == c
                        && forall k :: r.value < k < |s| ==> s[k] != c
    ensures r.None? ==> c !in s
  {
    if s == [] then Base.None
    else if s[|s| - 1] == c then Base.Some(|s| - 1)
    else
      var r := LastIndexOf(s[..|s| - 1], c);
      assert s == s[..|s| - 1] + [s[|s| - 1]];
      r
  }

  /* ---------- sequence identities ----------
     One identity about sequences each, stated apart so that the proofs
     above each hand the solver only the fact they need. */

  lemma ConsPrefix(s: string, k: nat)
    requires 1 + k <= |s|
    ensures s[..1 + k] == [s[0]] + s[1..][..k]
    ensures k < |s| - 1 ==> s[1 + k] == s[1..][k]
  {
  }

  lemma SnocSuffix(s: string, k: nat)
    requires 1 + k <= |s|
    ensures s[|s| - (1 + k)..] == s[..|s| - 1][|s| - 1 - k..] + [s[|s| - 1]]
    ensures k < |s| - 1 ==> s[|s| - (1 + k) - 1] == s[..|s| - 1][|s| - 1 - k - 1]
  {
  }

  lemma Regroup(lead: string, s: string, i: nat, j: nat, trail: string)
    requires i <= j <= |s|
    ensures lead + s + trail == (lead + s[..i]) + s[i..j] + (s[j..] + trail)
  {
    assert s == s[..i] + s[i..j] + s[j..];
  }

  /** `a + sep + b` starts with the first character of a non-empty `a`. */
  lemma ConsAround(a: string, sep: char, b: string)
    requires a != []
    ensures a == [a[0]] + a[1..]
    ensures a + [sep] + b == [a[0]] + (a[1..] + [sep] + b)
  {
  }

  lemma EmptyAround(a: string, sep: char, b: string)
    requires a == []
    ensures a + [sep] + b == [sep] + b
  {
  }

  lemma SuffixOfSuffix(s: string, i: nat, k: nat)
    requires i + k <= |s|
    ensures s[i..][k..] == s[i + k..]
  {
  }

  lemma PrefixOfSuffix(s: string, i: nat, k: nat)
    requires i + k <= |s|
    ensures s[i..][..k] == s[i..i + k]
  {
  }

  /** Taking the first character off a concatenation. */
  lemma ConsAppend(x: string, y: string, z: string)
    requires x != []
    ensures (x + y)[0] == x[0] && (x + y)[1..] == x[1..] + y
    ensures [x[0]] + (x[1..] + z) == x + z
  {
  }

  lemma AppendEmpty<T>(a: seq<T>, b: seq<T>)
    requires a == []
    ensures a + b == b
  {
  }

  lemma AppendAssoc<T>(x: seq<T>, y: seq<T>, z: seq<T>)
    ensures x + (y + z) == (x + y) + z
  {
  }

  /** Gluing a character onto the first piece commutes with appending pieces. */
  lemma GlueHead(c: char, pa: seq<string>, pb: seq<string>)
    requires |pa| >= 1
    ensures [[c] + (pa + pb)[0]] + (pa + pb)[1..] == ([[c] + pa[0]] + pa[1..]) + pb
  {
    assert (pa + pb)[1..] == pa[1..] + pb;
  }
}
