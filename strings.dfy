/** Text helpers shared by the JavaScript pages and the Python parsers: substring search,
    whitespace trimming, lower-casing, splitting on one separator and decimal rendering
    of integers. Strings are sequences of Unicode scalar values. */
module Strings {

  type String = seq<char>

  predicate IsPrefix(p: String, s: String) {
    |p| <= |s| && s[..|p|] == p
  }

  predicate IsSuffix(p: String, s: String) {
    |p| <= |s| && s[|s| - |p|..] == p
  }

  /** `sub` occurs in `s` (JavaScript `includes`, Python `in`). */
  predicate Contains(s: String, sub: String)
    decreases |s|
  {
    IsPrefix(sub, s) || (|s| > 0 && Contains(s[1..], sub))
  }

  /** An occurrence at a known position is found. */
  lemma {:induction false} ContainsAt(s: String, sub: String, i: nat)
    requires i + |sub| <= |s| && s[i..i + |sub|] == sub
    ensures Contains(s, sub)
    decreases i
  {
    if i == 0 {
      assert s[..|sub|] == sub;
    } else {
      assert s[1..][i - 1..i - 1 + |sub|] == s[i..i + |sub|];
      ContainsAt(s[1..], sub, i - 1);
    }
  }

  /** Every occurrence sits at some position. */
  lemma {:induction false} ContainsPosition(s: String, sub: String) returns (i: nat)
    requires Contains(s, sub)
    ensures i + |sub| <= |s| && s[i..i + |sub|] == sub
    decreases |s|
  {
    if IsPrefix(sub, s) {
      i := 0;
    } else {
      var j := ContainsPosition(s[1..], sub);
      assert s[1..][j..j + |sub|] == s[j + 1..j + 1 + |sub|];
      i := j + 1;
    }
  }

  /** An occurrence inside either half is an occurrence in the whole. */
  lemma ContainsInConcat(a: String, b: String, sub: String)
    ensures Contains(a, sub) ==> Contains(a + b, sub)
    ensures Contains(b, sub) ==> Contains(a + b, sub)
  {
    if Contains(a, sub) {
      var i := ContainsPosition(a, sub);
      assert (a + b)[i..i + |sub|] == a[i..i + |sub|];
      ContainsAt(a + b, sub, i);
    }
    if Contains(b, sub) {
      var i := ContainsPosition(b, sub);
      assert (a + b)[|a| + i..|a| + i + |sub|] == b[i..i + |sub|];
      ContainsAt(a + b, sub, |a| + i);
    }
  }

  /** The empty string occurs everywhere; nothing longer than `s` occurs in it. */
  lemma ContainsBasics(s: String, sub: String)
    ensures Contains(s, [])
    ensures |sub| > |s| ==> !Contains(s, sub)
  {
    assert s[..0] == [];
    if |sub| > |s| && Contains(s, sub) {
      var i := ContainsPosition(s, sub);
    }
  }

  // ---------------------------------------------------------------- whitespace

  /** The characters treated as white space by `trim()`/`strip()` and `\s` in this model:
      the ASCII ones, NBSP and the common Unicode space separators. */
  predicate IsSpace(c: char) {
    c == ' ' || c == '\t' || c == '\n' || c == '\r' || c == '\U{000B}' || c == '\U{000C}'
    || c == '\U{00A0}' || c == '\U{1680}' || ('\U{2000}' <= c <= '\U{200A}')
    || c == '\U{2028}' || c == '\U{2029}' || c == '\U{202F}' || c == '\U{205F}'
    || c == '\U{3000}' || c == '\U{FEFF}'
  }

  predicate IsBlank(s: String) {
    forall i | 0 <= i < |s| :: IsSpace(s[i])
  }

  /** Neither starts nor ends with white space. */
  predicate Trimmed(s: String) {
    s == [] || (!IsSpace(s[0]) && !IsSpace(s[|s| - 1]))
  }

  /** The number of white-space characters `s` starts with. */
  function LeadingSpaces(s: String): (n: nat)
    ensures n <= |s|
    ensures IsBlank(s[..n])
    ensures n < |s| ==> !IsSpace(s[n])
    decreases |s|
  {
    if s != [] && IsSpace(s[0]) then
      var m := LeadingSpaces(s[1..]);
      assert forall i | 1 <= i < m + 1 :: s[i] == s[1..][..m][i - 1];
      1 + m
    else 0
  }

  /** The number of white-space characters `s` ends with. */
  function TrailingSpaces(s: String): (n: nat)
    ensures n <= |s|
    ensures IsBlank(s[|s| - n..])
    ensures n < |s| ==> !IsSpace(s[|s| - 1 - n])
    decreases |s|
  {
    if s != [] && IsSpace(s[|s| - 1]) then
      var init := s[..|s| - 1];
      var m := TrailingSpaces(init);
      assert forall i | |s| - 1 - m <= i < |s| - 1 :: s[i] == init[|init| - m..][i - (|init| - m)];
      1 + m
    else 0
  }

  /** Drops leading white space (`trimStart()` / `lstrip()`). */
  function TrimStart(s: String): String {
    s[LeadingSpaces(s)..]
  }

  /** Drops trailing white space (`trimEnd()` / `rstrip()`). */
  function TrimEnd(s: String): String {
    s[..|s| - TrailingSpaces(s)]
  }

  /** JavaScript `trim()` / Python `strip()`: a slice of `s` that neither starts nor ends
      with white space, and is empty exactly when `s` is blank. */
  function Trim(s: String): (r: String)
    ensures |r| <= |s|
    ensures Trimmed(r)
    ensures r == [] <==> IsBlank(s)
  {
    var n := LeadingSpaces(s);
    var a := s[n..];
    var m := TrailingSpaces(a);
    assert IsBlank(a) ==> m == |a|;
    assert m == |a| ==> n == |s|;
    assert s[..|s|] == s;
    assert IsBlank(s) ==> IsBlank(a) by {
      assert forall i | 0 <= i < |a| :: a[i] == s[n + i];
    }
    a[..|a| - m]
  }

  /** The trimmed string is a slice of the original with only white space cut off on
      either side. */
  lemma TrimIsSlice(s: String) returns (i: nat, j: nat)
    ensures i <= j <= |s| && Trim(s) == s[i..j]
    ensures IsBlank(s[..i]) && IsBlank(s[j..])
  {
    i := LeadingSpaces(s);
    var a := s[i..];
    var m := TrailingSpaces(a);
    j := |s| - m;
    assert a[..|a| - m] == s[i..j];
    assert s[j..] == a[|a| - m..];
  }

  /** A string already free of surrounding white space is its own trim. */
  lemma TrimOfTrimmed(s: String)
    requires Trimmed(s)
    ensures Trim(s) == s
  {
    assert LeadingSpaces(s) == 0;
    assert s[0..] == s;
    assert TrailingSpaces(s) == 0;
  }

  // ---------------------------------------------------------------- case

  /** Lower-cases Latin and Cyrillic capitals; every other character is unchanged. */
  function LowerChar(c: char): (r: char)
    ensures 'A' <= c <= 'Z' ==> r as int == c as int + 32
    ensures !('A' <= c <= 'Z') && !('\U{0400}' <= c <= '\U{042F}') ==> r == c
  {
    if 'A' <= c <= 'Z' then (c as int + 32) as char
    else if '\U{0410}' <= c <= '\U{042F}' then (c as int + 32) as char
    else if '\U{0400}' <= c <= '\U{040F}' then (c as int + 80) as char
    else c
  }

  /** JavaScript `toLowerCase()` / Python `lower()`, restricted as `LowerChar` says. */
  function Lower(s: String): (r: String)
    ensures |r| == |s| && forall i | 0 <= i < |s| :: r[i] == LowerChar(s[i])
  {
    seq(|s|, i requires 0 <= i < |s| => LowerChar(s[i]))
  }

  lemma LowerConcat(a: String, b: String)
    ensures Lower(a + b) == Lower(a) + Lower(b)
  {
  }

  /** Lower-casing is idempotent. */
  lemma LowerIdempotent(s: String)
    ensures Lower(Lower(s)) == Lower(s)
  {
  }

  /** Lower-casing never turns white space into something else or back. */
  lemma LowerKeepsSpace(c: char)
    ensures IsSpace(LowerChar(c)) == IsSpace(c)
  {
  }

  lemma {:induction false} LeadingSpacesLower(s: String)
    ensures LeadingSpaces(Lower(s)) == LeadingSpaces(s)
    decreases |s|
  {
    if s != [] {
      LowerKeepsSpace(s[0]);
      assert Lower(s)[1..] == Lower(s[1..]);
      LeadingSpacesLower(s[1..]);
    }
  }

  lemma {:induction false} TrailingSpacesLower(s: String)
    ensures TrailingSpaces(Lower(s)) == TrailingSpaces(s)
    decreases |s|
  {
    if s != [] {
      LowerKeepsSpace(s[|s| - 1]);
      assert Lower(s)[..|s| - 1] == Lower(s[..|s| - 1]);
      TrailingSpacesLower(s[..|s| - 1]);
    }
  }

  lemma LowerSuffix(s: String, i: nat)
    requires i <= |s|
    ensures Lower(s)[i..] == Lower(s[i..])
  {
  }

  lemma LowerPrefix(s: String, i: nat)
    requires i <= |s|
    ensures Lower(s)[..i] == Lower(s[..i])
  {
  }

  /** Trimming and lower-casing commute. */
  lemma TrimLower(s: String)
    ensures Trim(Lower(s)) == Lower(Trim(s))
  {
    var n := LeadingSpaces(s);
    var a := s[n..];
    var m := TrailingSpaces(a);
    LeadingSpacesLower(s);
    LowerSuffix(s, n);
    TrailingSpacesLower(a);
    LowerPrefix(a, |a| - m);
    calc {
      Trim(Lower(s));
      Lower(s)[n..][..|a| - m];
      Lower(a)[..|a| - m];
      Lower(a[..|a| - m]);
      Lower(Trim(s));
    }
  }

  // ---------------------------------------------------------------- splitting

  /** Splitting on a single separator character (`s.split(",")`, `s.split("|")`): at least
      one part, the empty string gives `[""]`. */
  function Split(s: String, sep: char): (parts: seq<String>)
    ensures |parts| >= 1
    decreases |s|
  {
    if s == [] then [[]]
    else
      var rest := Split(s[1..], sep);
      if s[0] == sep then [[]] + rest else [[s[0]] + rest[0]] + rest[1..]
  }

  function Join(parts: seq<String>, sep: char): String
    requires |parts| >= 1
  {
    if |parts| == 1 then parts[0] else parts[0] + [sep] + Join(parts[1..], sep)
  }

  predicate Free(s: String, c: char) {
    forall i | 0 <= i < |s| :: s[i] != c
  }

  /** No part contains the separator. */
  lemma {:induction false} SplitPartsFree(s: String, sep: char)
    ensures forall k | 0 <= k < |Split(s, sep)| :: Free(Split(s, sep)[k], sep)
    decreases |s|
  {
    if s != [] {
      var rest := Split(s[1..], sep);
      SplitPartsFree(s[1..], sep);
      var parts := Split(s, sep);
      if s[0] == sep {
        assert parts[1..] == rest;
      } else {
        assert parts[1..] == rest[1..] && parts[0] == [s[0]] + rest[0];
      }
    }
  }

  /** Joining the parts back gives the input. */
  lemma {:induction false} SplitJoin(s: String, sep: char)
    ensures Join(Split(s, sep), sep) == s
    decreases |s|
  {
    if s != [] {
      var rest := Split(s[1..], sep);
      SplitJoin(s[1..], sep);
      SplitCons(s[0], s[1..], sep);
      assert [s[0]] + s[1..] == s;
      if s[0] == sep {
        JoinCons([], rest, sep);
      } else {
        JoinGlue([s[0]], rest, sep);
      }
    }
  }

  lemma JoinCons(p: String, parts: seq<String>, sep: char)
    requires |parts| >= 1
    ensures Join([p] + parts, sep) == p + [sep] + Join(parts, sep)
  {
    assert ([p] + parts)[1..] == parts;
  }

  /** Gluing `x` in front of the first part puts it in front of the join. */
  lemma JoinGlue(x: String, parts: seq<String>, sep: char)
    requires |parts| >= 1
    ensures Join([x + parts[0]] + parts[1..], sep) == x + Join(parts, sep)
  {
    if |parts| > 1 {
      JoinCons(x + parts[0], parts[1..], sep);
      assert parts == [parts[0]] + parts[1..];
      JoinCons(parts[0], parts[1..], sep);
    }
  }

  lemma SplitCons(c: char, s: String, sep: char)
    ensures c == sep ==> Split([c] + s, sep) == [[]] + Split(s, sep)
    ensures c != sep ==> Split([c] + s, sep) == [[c] + Split(s, sep)[0]] + Split(s, sep)[1..]
  {
    assert ([c] + s)[1..] == s;
  }

  /** A join whose first part is not empty starts with that part's first character. */
  lemma JoinHead(parts: seq<String>, sep: char)
    requires |parts| >= 1 && parts[0] != []
    ensures Join(parts, sep) == [parts[0][0]] + Join([parts[0][1..]] + parts[1..], sep)
  {
    var p := parts[0];
    var tail := [p[1..]] + parts[1..];
    assert tail[1..] == parts[1..];
    assert p == [p[0]] + p[1..];
  }

  /** Splitting a join of separator-free parts restores the parts. */
  lemma {:induction false} JoinSplit(parts: seq<String>, sep: char)
    requires |parts| >= 1
    requires forall k | 0 <= k < |parts| :: Free(parts[k], sep)
    ensures Split(Join(parts, sep), sep) == parts
    decreases |parts|, |parts[0]|
  {
    var p := parts[0];
    if p != [] {
      var tail := [p[1..]] + parts[1..];
      assert forall k | 1 <= k < |tail| :: tail[k] == parts[k];
      JoinSplit(tail, sep);
      JoinHead(parts, sep);
      SplitCons(p[0], Join(tail, sep), sep);
      assert [p[0]] + p[1..] == p;
      assert [p] + parts[1..] == parts;
    } else if |parts| > 1 {
      JoinSplit(parts[1..], sep);
      assert Join(parts, sep) == [sep] + Join(parts[1..], sep);
      SplitCons(sep, Join(parts[1..], sep), sep);
      assert [[]] + parts[1..] == parts;
    }
  }

  /** Splitting at a separator between two strings splits each of them. */
  lemma {:induction false} SplitConcat(a: String, b: String, sep: char)
    ensures Split(a + [sep] + b, sep) == Split(a, sep) + Split(b, sep)
    decreases |a|
  {
    if a == [] {
      assert a + [sep] + b == [sep] + b;
      SplitCons(sep, b, sep);
    } else {
      SplitConcat(a[1..], b, sep);
      SplitConcatStep(a[0], a[1..], b, sep);
      assert a == [a[0]] + a[1..];
      assert a + [sep] + b == [a[0]] + (a[1..] + [sep] + b);
    }
  }

  /** One character in front keeps `SplitConcat` true. */
  lemma SplitConcatStep(c: char, rest: String, b: String, sep: char)
    requires Split(rest + [sep] + b, sep) == Split(rest, sep) + Split(b, sep)
    ensures Split([c] + (rest + [sep] + b), sep) == Split([c] + rest, sep) + Split(b, sep)
  {
    var tail := rest + [sep] + b;
    SplitCons(c, tail, sep);
    SplitCons(c, rest, sep);
    if c != sep {
      GlueFirst([c], Split(tail, sep), Split(rest, sep), Split(b, sep));
    }
  }

  /** Gluing a prefix onto the first part commutes with appending more parts. */
  lemma GlueFirst(x: String, r: seq<String>, p: seq<String>, q: seq<String>)
    requires |p| >= 1 && r == p + q
    ensures [x + r[0]] + r[1..] == ([x + p[0]] + p[1..]) + q
  {
    assert r[1..] == p[1..] + q;
  }

  /** A string without the separator is its own only part. */
  lemma SplitFree(s: String, sep: char)
    requires Free(s, sep)
    ensures Split(s, sep) == [s]
  {
    JoinSplit([s], sep);
  }

  /** `s.split(sep).map(trim).filter(Boolean)`: the trimmed non-empty parts in order. */
  function TrimmedParts(parts: seq<String>): (r: seq<String>)
    ensures |r| <= |parts|
    ensures forall k | 0 <= k < |r| :: r[k] != [] && Trimmed(r[k])
  {
    if parts == [] then []
    else
      var t := Trim(parts[0]);
      if t == [] then TrimmedParts(parts[1..]) else [t] + TrimmedParts(parts[1..])
  }

  function SplitTrimNonEmpty(s: String, sep: char): seq<String> {
    TrimmedParts(Split(s, sep))
  }

  /** Python `s[:n]` / JavaScript `s.slice(0, n)` for `n >= 0`. */
  function Take<T(==)>(s: seq<T>, n: nat): (r: seq<T>)
    ensures |r| == if n < |s| then n else |s|
    ensures IsPrefixOf(r, s)
  {
    if n < |s| then s[..n] else s
  }

  predicate IsPrefixOf<T(==)>(p: seq<T>, s: seq<T>) {
    |p| <= |s| && s[..|p|] == p
  }

  // ---------------------------------------------------------------- numbers

  predicate IsDigit(c: char) {
    '0' <= c <= '9'
  }

  predicate AllDigits(s: String) {
    forall i | 0 <= i < |s| :: IsDigit(s[i])
  }

  function DigitValue(c: char): nat
    requires IsDigit(c)
  {
    c as int - '0' as int
  }

  function DigitChar(d: nat): (c: char)
    requires d < 10
    ensures IsDigit(c) && DigitValue(c) == d
  {
    ('0' as int + d) as char
  }

  /** Decimal value of a digit string (leading zeros allowed, empty is 0). */
  function DigitsValue(s: String): nat
    requires AllDigits(s)
  {
    if s == [] then 0 else DigitsValue(s[..|s| - 1]) * 10 + DigitValue(s[|s| - 1])
  }

  /** JavaScript `String(n)` / Python `str(n)` for a natural number. */
  function NatToString(n: nat): (s: String)
    ensures |s| >= 1 && AllDigits(s)
    ensures (s[0] == '0') == (n == 0)
    ensures |s| == 1 <==> n < 10
  {
    if n < 10 then [DigitChar(n)] else NatToString(n / 10) + [DigitChar(n % 10)]
  }

  /** Reading the decimal rendering back gives the number. */
  lemma {:induction false} NatToStringValue(n: nat)
    ensures DigitsValue(NatToString(n)) == n
  {
    if n >= 10 {
      var s := NatToString(n);
      assert s[..|s| - 1] == NatToString(n / 10);
      NatToStringValue(n / 10);
    }
  }

  lemma NatToStringInjective(a: nat, b: nat)
    ensures NatToString(a) == NatToString(b) ==> a == b
  {
    NatToStringValue(a);
    NatToStringValue(b);
  }

  /** The number of digits `s` starts with. */
  function DigitRun(s: String): (n: nat)
    ensures n <= |s|
  {
    if s != [] && IsDigit(s[0]) then 1 + DigitRun(s[1..]) else 0
  }

  lemma {:induction false} DigitRunOf(t: String, r: String)
    requires AllDigits(t) && r != [] && !IsDigit(r[0])
    ensures DigitRun(t + r) == |t|
    decreases |t|
  {
    if t != [] {
      assert (t + r)[1..] == t[1..] + r;
      assert AllDigits(t[1..]) by {
        forall i | 0 <= i < |t[1..]| ensures IsDigit(t[1..][i]) { assert t[1..][i] == t[i + 1]; }
      }
      DigitRunOf(t[1..], r);
    } else {
      assert t + r == r;
    }
  }

  /** A run of digits, followed by something that is not a digit, is found again in a
      string that starts the same way. */
  lemma DigitRunsAgree(p: String, ta: String, tb: String, ra: String, rb: String)
    requires AllDigits(ta) && AllDigits(tb)
    requires ra != [] && rb != [] && !IsDigit(ra[0]) && !IsDigit(rb[0])
    requires p + ta + ra == p + tb + rb
    ensures ta == tb && ra == rb
  {
    var z := p + ta + ra;
    assert z[|p|..] == ta + ra;
    assert (p + tb + rb)[|p|..] == tb + rb;
    DigitRunOf(ta, ra);
    DigitRunOf(tb, rb);
    assert |ta| == |tb|;
    assert ta == (ta + ra)[..|ta|] && tb == (tb + rb)[..|tb|];
    assert ra == (ta + ra)[|ta|..] && rb == (tb + rb)[|tb|..];
  }

  /** The number of digits from `i` on. */
  function DigitCount(s: String, i: nat): (n: nat)
    ensures i + n <= |s| || n == 0
    ensures forall j | i <= j < i + n :: IsDigit(s[j])
    decreases |s| - i
  {
    if i < |s| && IsDigit(s[i]) then 1 + DigitCount(s, i + 1) else 0
  }

  /** The number of white-space characters (`\s`) from `i` on. */
  function SpaceCount(s: String, i: nat): (n: nat)
    ensures i + n <= |s| || n == 0
    decreases |s| - i
  {
    if i < |s| && IsSpace(s[i]) then 1 + SpaceCount(s, i + 1) else 0
  }

  function IntToString(n: int): (s: String)
    ensures s != []
  {
    if n < 0 then "-" + NatToString(-n) else NatToString(n)
  }

  /** Different integers have different decimal renderings. */
  lemma IntToStringInjective(a: int, b: int)
    ensures IntToString(a) == IntToString(b) ==> a == b
  {
    if IntToString(a) == IntToString(b) {
      if a < 0 && b < 0 {
        assert IntToString(a)[1..] == NatToString(-a);
        assert IntToString(b)[1..] == NatToString(-b);
        NatToStringInjective(-a, -b);
      } else if a >= 0 && b >= 0 {
        NatToStringInjective(a, b);
      }
    }
  }
}
