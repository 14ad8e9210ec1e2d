/** Strings as the page script sees them: the whitespace class shared by
    `String.prototype.trim` and the regular-expression escape `\s`, the
    UTF-16 `length` of a string, and trimming. */
module Text {

  /** ECMAScript WhiteSpace and LineTerminator code points: tab, line feed,
      vertical tab, form feed, carriage return, space, no-break space, the
      other space separators of category Zs, line and paragraph separators,
      and the zero-width no-break space. */
  predicate IsSpace(c: char)
  {
    || c == '\t' || c == '\n' || c == '\U{000B}' || c == '\U{000C}' || c == '\r'
    || c == ' ' || c == '\U{00A0}' || c == '\U{1680}'
    || ('\U{2000}' <= c <= '\U{200A}')
    || c == '\U{2028}' || c == '\U{2029}' || c == '\U{202F}' || c == '\U{205F}'
    || c == '\U{3000}' || c == '\U{FEFF}'
  }

  /** Every character of `s` in positions `lo .. hi-1` is whitespace. */
  ghost predicate SpaceBetween(s: string, lo: int, hi: int)
    requires 0 <= lo <= hi <= |s|
  {
    forall k :: lo <= k < hi ==> IsSpace(s[k])
  }

  ghost predicate AllSpace(s: string)
  {
    SpaceBetween(s, 0, |s|)
  }

  /** A string with no whitespace at either end. */
  predicate Tight(s: string)
  {
    s == [] || (!IsSpace(s[0]) && !IsSpace(s[|s| - 1]))
  }

  /** The value of `length` for a string: the number of UTF-16 code units,
      two for every code point outside the Basic Multilingual Plane. */
  function Utf16Length(s: string): (n: nat)
    ensures |s| <= n <= 2 * |s|
    ensures n == |s| <==> forall k :: 0 <= k < |s| ==> s[k] <= '\U{FFFF}'
  {
    if s == [] then 0
    else (if s[0] <= '\U{FFFF}' then 1 else 2) + Utf16Length(s[1..])
  }

  /** One character is one code unit inside the Basic Multilingual Plane
      and a surrogate pair outside it. */
  lemma Utf16Unit(c: char)
    ensures Utf16Length([c]) == if c <= '\U{FFFF}' then 1 else 2
  {
    assert [c][1..] == [];
  }

  /** `length` adds up over concatenation; with `Utf16Unit` this fixes the
      count of every string, character by character. */
  lemma {:induction false} Utf16Concat(a: string, b: string)
    ensures Utf16Length(a + b) == Utf16Length(a) + Utf16Length(b)
    decreases |a|
  {
    if a == [] {
      assert a + b == b;
    } else {
      assert (a + b)[0] == a[0] && (a + b)[1..] == a[1..] + b;
      Utf16Concat(a[1..], b);
    }
  }

  /** Number of whitespace characters at the front of `s`. */
  function LeadingSpace(s: string): (n: nat)
    ensures n <= |s|
    ensures forall k :: 0 <= k < n ==> IsSpace(s[k])
    ensures n < |s| ==> !IsSpace(s[n])
  {
    if s == [] || !IsSpace(s[0]) then 0 else 1 + LeadingSpace(s[1..])
  }

  /** Number of whitespace characters at the back of `s`. */
  function TrailingSpace(s: string): (n: nat)
    ensures n <= |s|
    ensures forall k :: |s| - n <= k < |s| ==> IsSpace(s[k])
    ensures n < |s| ==> !IsSpace(s[|s| - 1 - n])
  {
    if s == [] || !IsSpace(s[|s| - 1]) then 0 else 1 + TrailingSpace(s[..|s| - 1])
  }

  /** `s.trim()`: drop the maximal whitespace prefix and suffix. */
  function Trim(s: string): (r: string)
    ensures |r| <= |s|
    ensures Tight(r)
  {
    var t := s[LeadingSpace(s)..];
    t[..|t| - TrailingSpace(t)]
  }

  /** Reference definition of trimming: `r` is a slice of `s`, everything
      around it is whitespace, and it has no whitespace at its own ends. */
  ghost predicate IsTrimOf(s: string, r: string)
  {
    exists i, j :: 0 <= i <= j <= |s| && r == s[i..j] && Tight(r)
      && SpaceBetween(s, 0, i) && SpaceBetween(s, j, |s|)
  }

  /** Where the trimmed string sits inside the original. */
  lemma TrimBounds(s: string) returns (i: nat, j: nat)
    ensures i <= j <= |s| && Trim(s) == s[i..j]
    ensures SpaceBetween(s, 0, i) && SpaceBetween(s, j, |s|)
  {
    i := LeadingSpace(s);
    var t := s[i..];
    j := i + |t| - TrailingSpace(t);
    assert Trim(s) == s[i..j];
    assert forall k :: j <= k < |s| ==> s[k] == t[k - i];
  }

  lemma TrimSatisfiesReference(s: string)
    ensures IsTrimOf(s, Trim(s))
  {
    var i, j := TrimBounds(s);
  }

  /** A whitespace run ending at a non-space character (or at the end) is
      exactly what LeadingSpace counts. */
  lemma LeadingSpaceIs(s: string, i: nat)
    requires i <= |s| && SpaceBetween(s, 0, i)
    requires i < |s| ==> !IsSpace(s[i])
    ensures LeadingSpace(s) == i
  {
  }

  lemma TrailingSpaceIs(s: string, n: nat)
    requires n <= |s| && SpaceBetween(s, |s| - n, |s|)
    requires n < |s| ==> !IsSpace(s[|s| - 1 - n])
    ensures TrailingSpace(s) == n
  {
  }

  /** A string of whitespace only trims to the empty string. */
  lemma BlankTrimsToEmpty(s: string)
    requires AllSpace(s)
    ensures Trim(s) == []
  {
    LeadingSpaceIs(s, |s|);
  }

  /** The slice `s[i..j]` is the trimmed string when it is tight and only
      whitespace lies around it. */
  lemma TightSliceIsTrim(s: string, i: nat, j: nat)
    requires i <= j <= |s| && Tight(s[i..j])
    requires SpaceBetween(s, 0, i) && SpaceBetween(s, j, |s|)
    ensures s[i..j] == Trim(s)
  {
    if i == j {
      assert AllSpace(s);
      BlankTrimsToEmpty(s);
    } else {
      TightSliceNonEmpty(s, i, j);
    }
  }

  lemma TightSliceNonEmpty(s: string, i: nat, j: nat)
    requires i < j <= |s| && Tight(s[i..j])
    requires SpaceBetween(s, 0, i) && SpaceBetween(s, j, |s|)
    ensures s[i..j] == Trim(s)
  {
    assert !IsSpace(s[i]) by { assert s[i] == s[i..j][0]; }
    LeadingSpaceIs(s, i);
    var t := s[i..];
    assert |t| == |s| - i;
    assert SpaceBetween(t, j - i, |t|) by {
      forall k | j - i <= k < |t| ensures IsSpace(t[k]) { assert t[k] == s[k + i]; }
    }
    assert !IsSpace(t[j - 1 - i]) by {
      assert t[j - 1 - i] == s[j - 1] == s[i..j][|s[i..j]| - 1];
    }
    TrailingSpaceIs(t, |s| - j);
    assert Trim(s) == t[..j - i];
    assert t[..j - i] == s[i..j];
  }

  /** Any string meeting the reference definition is the trimmed string. */
  lemma ReferenceDeterminesTrim(s: string, r: string)
    requires IsTrimOf(s, r)
    ensures r == Trim(s)
  {
    var i, j :| 0 <= i <= j <= |s| && r == s[i..j] && Tight(r)
      && SpaceBetween(s, 0, i) && SpaceBetween(s, j, |s|);
    TightSliceIsTrim(s, i, j);
  }

  /** A string without surrounding whitespace is its own trim. */
  lemma TightIsOwnTrim(s: string)
    requires Tight(s)
    ensures Trim(s) == s
  {
    assert s[0..|s|] == s;
    TightSliceIsTrim(s, 0, |s|);
  }

  lemma TrimCharacterization(s: string, r: string)
    ensures r == Trim(s) <==> IsTrimOf(s, r)
  {
    TrimSatisfiesReference(s);
    if IsTrimOf(s, r) {
      ReferenceDeterminesTrim(s, r);
    }
  }

  lemma TrimIdempotent(s: string)
    ensures Trim(Trim(s)) == Trim(s)
  {
    var r := Trim(s);
    assert r[0..|r|] == r;
    assert IsTrimOf(r, r);
    ReferenceDeterminesTrim(r, r);
  }

  /** Whitespace added around a string does not change its trimmed value. */
  lemma TrimIgnoresPadding(a: string, s: string, b: string)
    requires AllSpace(a) && AllSpace(b)
    ensures Trim(a + s + b) == Trim(s)
  {
    var i, j := TrimBounds(s);
    var p := a + s + b;
    PaddedSlice(a, s, b, i, j);
    TightSliceIsTrim(p, |a| + i, |a| + j);
  }

  lemma PaddedSlice(a: string, s: string, b: string, i: nat, j: nat)
    requires AllSpace(a) && AllSpace(b)
    requires i <= j <= |s| && SpaceBetween(s, 0, i) && SpaceBetween(s, j, |s|)
    ensures (a + s + b)[|a| + i..|a| + j] == s[i..j]
    ensures SpaceBetween(a + s + b, 0, |a| + i)
    ensures SpaceBetween(a + s + b, |a| + j, |a + s + b|)
  {
    var p := a + s + b;
    forall k | 0 <= k < |a| + i ensures IsSpace(p[k]) {
      if k < |a| { assert p[k] == a[k]; } else { assert p[k] == s[k - |a|]; }
    }
    forall k | |a| + j <= k < |p| ensures IsSpace(p[k]) {
      if k < |a| + |s| { assert p[k] == s[k - |a|]; } else { assert p[k] == b[k - |a| - |s|]; }
    }
  }
}
