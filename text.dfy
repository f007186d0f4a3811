/**
 * The string operations of Python's `str` that the modelled code relies on:
 * `lower()`, `upper()`, `strip()`, `in` on strings, slicing `s[:n]` and
 * `split(sep)`. Case mapping and white space follow Python's rules over the
 * Latin-1 range, which is every character a file read with `encoding='latin-1'`
 * can hold.
 */
module Text {

  // ---------------------------------------------------------------------------
  // Case mapping
  // ---------------------------------------------------------------------------

  /** True for the characters Python's `lower()` changes within Latin-1. */
  predicate IsUpperLatin1(c: char) {
    ('A' <= c <= 'Z') || ('\U{C0}' <= c <= '\U{DE}' && c != '\U{D7}')
  }

  /** True for the characters Python's `upper()` maps to a single Latin-1 character. */
  predicate IsLowerLatin1(c: char) {
    ('a' <= c <= 'z') || ('\U{E0}' <= c <= '\U{FE}' && c != '\U{F7}')
  }

  function LowerChar(c: char): (r: char)
    ensures IsUpperLatin1(c) ==> r as int == c as int + 32 && IsLowerLatin1(r)
    ensures !IsUpperLatin1(c) ==> r == c
  {
    if IsUpperLatin1(c) then (c as int + 32) as char else c
  }

  /** Python's `str.lower()`; characters outside Latin-1 are left as they are. */
  function Lower(s: string): (r: string)
    ensures |r| == |s|
    ensures forall i :: 0 <= i < |s| ==> r[i] == LowerChar(s[i])
  {
    seq(|s|, i requires 0 <= i < |s| => LowerChar(s[i]))
  }

  /**
   * Python's `upper()` of one Latin-1 character. Three lower-case letters
   * have no single-character Latin-1 upper case: sharp s becomes "SS",
   * micro sign becomes Greek capital mu and y with diaeresis becomes
   * capital Y with diaeresis (U+0178).
   */
  function UpperChar(c: char): (r: string)
    ensures |r| == if c == '\U{DF}' then 2 else 1
    ensures IsLowerLatin1(c) ==> r == [(c as int - 32) as char] && IsUpperLatin1(r[0])
    ensures c == '\U{DF}' ==> r == "SS"
    ensures c == '\U{B5}' ==> r == "\U{39C}"
    ensures c == '\U{FF}' ==> r == "\U{178}"
    ensures !IsLowerLatin1(c) && c != '\U{DF}' && c != '\U{B5}' && c != '\U{FF}' ==> r == [c]
  {
    if IsLowerLatin1(c) then [(c as int - 32) as char]
    else if c == '\U{DF}' then "SS"
    else if c == '\U{B5}' then "\U{39C}"
    else if c == '\U{FF}' then "\U{178}"
    else [c]
  }

  /**
   * Python's `str.upper()` over Latin-1 text. Without a sharp s it maps
   * character by character, each through `UpperChar`.
   */
  function Upper(s: string): (r: string)
    ensures |s| <= |r| <= 2 * |s|
    ensures |s| == 1 ==> r == UpperChar(s[0])
    ensures (forall i :: 0 <= i < |s| ==> s[i] != '\U{DF}') ==>
      |r| == |s| && forall i :: 0 <= i < |s| ==> [r[i]] == UpperChar(s[i])
  {
    if s == [] then []
    else
      assert forall i :: 1 <= i < |s| ==> s[1..][i - 1] == s[i];
      UpperChar(s[0]) + Upper(s[1..])
  }

  /** Upper-casing works piece by piece. */
  lemma {:induction false} UpperAppend(a: string, b: string)
    ensures Upper(a + b) == Upper(a) + Upper(b)
  {
    if a == [] {
      assert a + b == b;
    } else {
      assert (a + b)[0] == a[0] && (a + b)[1..] == a[1..] + b;
      UpperAppend(a[1..], b);
    }
  }

  /** No character of `s` is changed by `UpperChar`. */
  ghost predicate IsUpperCased(s: string) {
    forall i :: 0 <= i < |s| ==> UpperChar(s[i]) == [s[i]]
  }

  /** The upper case of one character is left alone by a second upper-casing. */
  lemma UpperCharIsUpperCased(c: char)
    ensures IsUpperCased(UpperChar(c))
  {
    var u := UpperChar(c);
    if c == '\U{DF}' {
      assert u == "SS" && UpperChar('S') == "S";
    } else if IsLowerLatin1(c) {
      assert !IsLowerLatin1(u[0]);
    }
  }

  lemma {:induction false} UpperIsUpperCased(s: string)
    ensures IsUpperCased(Upper(s))
  {
    if s != [] {
      UpperIsUpperCased(s[1..]);
      var u := UpperChar(s[0]);
      UpperCharIsUpperCased(s[0]);
      var t := Upper(s[1..]);
      var r := Upper(s);
      assert r == u + t;
      forall i | 0 <= i < |r| ensures UpperChar(r[i]) == [r[i]] {
        if i < |u| {
          assert r[i] == u[i];
        } else {
          assert r[i] == t[i - |u|];
        }
      }
    }
  }

  lemma {:induction false} UpperOfUpperCased(s: string)
    requires IsUpperCased(s)
    ensures Upper(s) == s
  {
    if s != [] {
      assert IsUpperCased(s[1..]) by {
        forall i | 0 <= i < |s| - 1 ensures UpperChar(s[1..][i]) == [s[1..][i]] {
          assert s[1..][i] == s[i + 1];
        }
      }
      UpperOfUpperCased(s[1..]);
      assert UpperChar(s[0]) == [s[0]];
    }
  }

  /** Upper-casing twice is upper-casing once. */
  lemma UpperIdempotent(s: string)
    ensures Upper(Upper(s)) == Upper(s)
  {
    UpperIsUpperCased(s);
    UpperOfUpperCased(Upper(s));
  }

  // ---------------------------------------------------------------------------
  // White space and strip()
  // ---------------------------------------------------------------------------

  /** Python's `str.isspace()` over Latin-1. */
  predicate IsSpace(c: char) {
    c == ' ' || ('\t' <= c <= '\r') || ('\U{1C}' <= c <= '\U{1F}') || c == '\U{85}' || c == '\U{A0}'
  }

  /** The number of white-space characters at the start of `s`. */
  function LeadingSpaces(s: string): (n: nat)
    ensures n <= |s|
    ensures forall i :: 0 <= i < n ==> IsSpace(s[i])
    ensures n < |s| ==> !IsSpace(s[n])
  {
    if s == [] || !IsSpace(s[0]) then 0 else 1 + LeadingSpaces(s[1..])
  }

  /** The number of white-space characters at the end of `s`. */
  function TrailingSpaces(s: string): (n: nat)
    ensures n <= |s|
    ensures forall i :: |s| - n <= i < |s| ==> IsSpace(s[i])
    ensures n < |s| ==> !IsSpace(s[|s| - 1 - n])
  {
    if s == [] || !IsSpace(s[|s| - 1]) then 0 else 1 + TrailingSpaces(s[..|s| - 1])
  }

  /** `r` is `s` at position `k` with only white space before and after it. */
  predicate StrippedAt(s: string, r: string, k: int) {
    && OccursAt(s, r, k)
    && (forall i :: 0 <= i < k ==> IsSpace(s[i]))
    && (forall i :: k + |r| <= i < |s| ==> IsSpace(s[i]))
  }

  /**
   * Python's `str.strip()` with no argument: what is left of `s` once the
   * white space at both ends is removed, and nothing more.
   */
  function Strip(s: string): (r: string)
    ensures |r| <= |s|
    ensures r != [] ==> !IsSpace(r[0]) && !IsSpace(r[|r| - 1])
    ensures exists k :: StrippedAt(s, r, k)
  {
    var a := LeadingSpaces(s);
    var rest := s[a..];
    var n := TrailingSpaces(rest);
    var r := rest[..|rest| - n];
    assert StrippedAt(s, r, a) by {
      assert s[a..a + |r|] == r;
      forall i | a + |r| <= i < |s| ensures IsSpace(s[i]) {
        assert s[i] == rest[i - a];
      }
    }
    r
  }

  /** Stripping a string that neither starts nor ends with white space leaves it unchanged. */
  lemma StripOfStripped(s: string)
    requires s != [] ==> !IsSpace(s[0]) && !IsSpace(s[|s| - 1])
    ensures Strip(s) == s
  {
  }

  // ---------------------------------------------------------------------------
  // Substrings and slicing
  // ---------------------------------------------------------------------------

  predicate IsPrefix(p: string, s: string) {
    |p| <= |s| && s[..|p|] == p
  }

  /** `sub` occurs in `s` starting at position `k`. */
  predicate OccursAt(s: string, sub: string, k: int) {
    0 <= k && k + |sub| <= |s| && s[k..k + |sub|] == sub
  }

  /** Python's `sub in s`. */
  predicate Contains(s: string, sub: string)
    ensures sub == [] ==> Contains(s, sub)
    ensures Contains(s, sub) ==> |sub| <= |s|
    decreases |s|
  {
    IsPrefix(sub, s) || (s != [] && Contains(s[1..], sub))
  }

  /** `Contains` holds exactly when `sub` occurs at some position of `s`. */
  lemma {:induction false} ContainsAt(s: string, sub: string)
    ensures Contains(s, sub) <==> exists k :: OccursAt(s, sub, k)
  {
    if IsPrefix(sub, s) {
      assert OccursAt(s, sub, 0);
    }
    if s != [] {
      ContainsAt(s[1..], sub);
      if Contains(s[1..], sub) {
        var k :| OccursAt(s[1..], sub, k);
        assert s[k + 1..k + 1 + |sub|] == s[1..][k..k + |sub|];
        assert OccursAt(s, sub, k + 1);
      }
      if exists k :: OccursAt(s, sub, k) {
        var k :| OccursAt(s, sub, k);
        if k > 0 {
          assert s[1..][k - 1..k - 1 + |sub|] == s[k..k + |sub|];
          assert OccursAt(s[1..], sub, k - 1);
        }
      }
    } else if exists k :: OccursAt(s, sub, k) {
      var k :| OccursAt(s, sub, k);
      assert k == 0 && sub == [];
    }
  }

  /** Python's `s[:n]` for `n >= 0`. */
  function Take(s: string, n: nat): (r: string)
    ensures |r| <= n && |r| <= |s|
    ensures r == s[..|r|]
    ensures |s| <= n ==> r == s
    ensures |s| > n ==> |r| == n
  {
    if |s| <= n then s else s[..n]
  }

  // ---------------------------------------------------------------------------
  // split(sep) and its inverse
  // ---------------------------------------------------------------------------

  /** Python's `s.split(d)` for a one-character separator `d`. */
  function Split(s: string, d: char): (parts: seq<string>)
    ensures |parts| >= 1
    ensures forall i :: 0 <= i < |parts| ==> d !in parts[i]
    decreases |s|
  {
    if s == [] then [[]]
    else
      var rest := Split(s[1..], d);
      if s[0] == d then [[]] + rest
      else [[s[0]] + rest[0]] + rest[1..]
  }

  /** Python's `d.join(parts)`. */
  function Join(parts: seq<string>, d: char): string
    requires |parts| >= 1
    decreases |parts|
  {
    if |parts| == 1 then parts[0] else parts[0] + [d] + Join(parts[1..], d)
  }

  /** Joining the pieces of a split gives back the original string. */
  lemma {:induction false} JoinSplit(s: string, d: char)
    ensures Join(Split(s, d), d) == s
  {
    if s != [] {
      var rest := Split(s[1..], d);
      JoinSplit(s[1..], d);
      if s[0] == d {
        assert ([[]] + rest)[1..] == rest;
      } else {
        var parts := [[s[0]] + rest[0]] + rest[1..];
        assert parts[1..] == rest[1..];
        if |rest| > 1 {
          assert Join(rest, d) == rest[0] + [d] + Join(rest[1..], d);
        }
      }
    }
  }

  lemma {:induction false} SplitPrefix(a: string, rest: string, d: char)
    requires d !in a
    ensures Split(a + rest, d) == [a + Split(rest, d)[0]] + Split(rest, d)[1..]
    decreases |a|
  {
    if a != [] {
      SplitPrefix(a[1..], rest, d);
      assert (a + rest)[1..] == a[1..] + rest;
      assert (a + rest)[0] == a[0];
      assert [a[0]] + (a[1..] + Split(rest, d)[0]) == a + Split(rest, d)[0];
    } else {
      var parts := Split(rest, d);
      assert a + rest == rest;
      assert a + parts[0] == parts[0];
      assert [parts[0]] + parts[1..] == parts;
    }
  }

  /** Splitting the join of separator-free pieces gives back the pieces. */
  lemma {:induction false} SplitJoin(parts: seq<string>, d: char)
    requires |parts| >= 1
    requires forall i :: 0 <= i < |parts| ==> d !in parts[i]
    ensures Split(Join(parts, d), d) == parts
    decreases |parts|
  {
    if |parts| == 1 {
      SplitPrefix(parts[0], [], d);
      assert parts[0] + [] == parts[0];
    } else {
      var tail := Join(parts[1..], d);
      SplitJoin(parts[1..], d);
      assert Join(parts, d) == parts[0] + ([d] + tail);
      SplitPrefix(parts[0], [d] + tail, d);
      assert ([d] + tail)[1..] == tail;
      assert Split([d] + tail, d) == [[]] + parts[1..];
      assert parts[0] + [] == parts[0];
    }
  }
}
