/** The three contact-form rules (script.js, the `rules` table): which field,
    the test applied to its raw value, and the message shown when it fails. */
module Validation {

  import opened Text

  datatype Field = Name | Email | Message

  /** Position of a field in the rules table, which is the order submit
      visits them in. */
  function Rank(f: Field): (n: nat)
    ensures n < |RulesOrder| && RulesOrder[n] == f
  {
    match f
    case Name => 0
    case Email => 1
    case Message => 2
  }

  const RulesOrder: seq<Field> := [Name, Email, Message]

  function ErrorText(f: Field): string
  {
    match f
    case Name => "Please enter your name (at least 2 characters)."
    case Email => "Please enter a valid email address."
    case Message => "Please enter a message (at least 10 characters)."
  }

  const MinNameLength := 2
  const MinMessageLength := 10

  predicate NameValid(v: string)
  {
    Utf16Length(Trim(v)) >= MinNameLength
  }

  predicate MessageValid(v: string)
  {
    Utf16Length(Trim(v)) >= MinMessageLength
  }

  predicate EmailValid(v: string)
  {
    EmailShape(Trim(v))
  }

  predicate Valid(f: Field, v: string)
  {
    match f
    case Name => NameValid(v)
    case Email => EmailValid(v)
    case Message => MessageValid(v)
  }

  /** A character the class `[^\s@]` accepts. */
  predicate Plain(c: char)
  {
    !IsSpace(c) && c != '@'
  }

  predicate AllPlain(s: string)
  {
    forall k :: 0 <= k < |s| ==> Plain(s[k])
  }

  /** Position of the first `c` in `s`, or `|s|` when there is none. */
  function IndexOf(s: string, c: char): (i: nat)
    ensures i <= |s|
    ensures i < |s| ==> s[i] == c
    ensures forall k :: 0 <= k < i ==> s[k] != c
  {
    if s == [] then 0
    else if s[0] == c then 0
    else 1 + IndexOf(s[1..], c)
  }

  /** IndexOf finds the first occurrence and nothing earlier. */
  lemma IndexOfIs(s: string, c: char, i: nat)
    requires i <= |s| && (i < |s| ==> s[i] == c)
    requires forall k :: 0 <= k < i ==> s[k] != c
    ensures IndexOf(s, c) == i
  {
  }

  /** The email shape test on an already trimmed string: a non-empty local
      part without whitespace or `@`, one `@`, and a domain without whitespace
      or `@` holding a `.` that is neither its first nor its last character. */
  predicate EmailShape(t: string)
  {
    var at := IndexOf(t, '@');
    && 0 < at < |t|
    && AllPlain(t[..at])
    && DomainShape(t[at + 1..])
  }

  predicate DomainShape(d: string)
  {
    AllPlain(d) && exists k :: 1 <= k < |d| - 1 && d[k] == '.'
  }

  /** The language of `^[^\s@]+@[^\s@]+\.[^\s@]+$`: three non-empty runs of
      plain characters joined by `@` and `.`. */
  ghost predicate MatchesEmailPattern(t: string)
  {
    exists a, b, c :: Pattern(t, a, b, c)
  }

  ghost predicate Pattern(t: string, a: string, b: string, c: string)
  {
    && t == a + "@" + b + "." + c
    && a != [] && b != [] && c != []
    && AllPlain(a) && AllPlain(b) && AllPlain(c)
  }

  lemma PlainSlice(d: string, lo: nat, hi: nat)
    requires lo <= hi <= |d| && AllPlain(d)
    ensures AllPlain(d[lo..hi])
  {
    forall m | 0 <= m < hi - lo ensures Plain(d[lo..hi][m]) {
      assert d[lo..hi][m] == d[lo + m];
    }
  }

  /** Cutting at the first `@` and at a dot of the domain gives the three
      runs of the pattern. */
  lemma ShapeSplit(t: string, at: nat, k: nat)
    requires 0 < at < |t| && t[at] == '@'
    requires 1 <= k < |t| - at - 2 && t[at + 1 + k] == '.'
    requires AllPlain(t[..at]) && AllPlain(t[at + 1..])
    ensures Pattern(t, t[..at], t[at + 1..][..k], t[at + 1..][k + 1..])
  {
    var d := t[at + 1..];
    assert d[k] == '.';
    PlainSlice(d, 0, k);
    PlainSlice(d, k + 1, |d|);
    assert d[..k] == d[0..k] && d[k + 1..] == d[k + 1..|d|];
    assert d == d[..k] + "." + d[k + 1..];
    assert t == t[..at] + "@" + d;
  }

  lemma ShapeGivesPattern(t: string)
    requires EmailShape(t)
    ensures MatchesEmailPattern(t)
  {
    var at := IndexOf(t, '@');
    var d := t[at + 1..];
    var k :| 1 <= k < |d| - 1 && d[k] == '.';
    ShapeSplit(t, at, k);
  }

  lemma PatternGivesShape(t: string, a: string, b: string, c: string)
    requires Pattern(t, a, b, c)
    ensures EmailShape(t)
  {
    var d := b + "." + c;
    assert t == a + "@" + d;
    assert t[|a|] == '@';
    assert forall m :: 0 <= m < |a| ==> t[m] == a[m];
    assert IndexOf(t, '@') == |a|;
    assert t[..|a|] == a;
    assert t[|a| + 1..] == d;
    assert forall m :: 0 <= m < |d| ==> Plain(d[m]) by {
      forall m | 0 <= m < |d| ensures Plain(d[m]) {
        if m < |b| { assert d[m] == b[m]; }
        else if m > |b| { assert d[m] == c[m - |b| - 1]; }
      }
    }
    assert d[|b|] == '.';
    assert DomainShape(d);
  }

  /** The shape test accepts exactly the strings the regular expression
      matches. */
  lemma EmailShapeMatchesPattern(t: string)
    ensures EmailShape(t) <==> MatchesEmailPattern(t)
  {
    if EmailShape(t) {
      ShapeGivesPattern(t);
    }
    if MatchesEmailPattern(t) {
      var a, b, c :| Pattern(t, a, b, c);
      PatternGivesShape(t, a, b, c);
    }
  }

  /** The email rule is the regular expression applied to the trimmed value. */
  lemma EmailRuleIsPattern(v: string)
    ensures EmailValid(v) <==> MatchesEmailPattern(Trim(v))
  {
    EmailShapeMatchesPattern(Trim(v));
  }

  /** Whitespace typed around a value never changes whether a rule accepts it. */
  lemma ValidIgnoresPadding(f: Field, a: string, v: string, b: string)
    requires AllSpace(a) && AllSpace(b)
    ensures Valid(f, a + v + b) <==> Valid(f, v)
  {
    TrimIgnoresPadding(a, v, b);
  }

  /** The trimmed value that a successful submit puts into the mail passes
      the same rule as the raw value it came from. */
  lemma ValidOfTrimmed(f: Field, v: string)
    ensures Valid(f, Trim(v)) <==> Valid(f, v)
  {
    TrimIdempotent(v);
  }

  /** A value made of whitespace only fails every rule. */
  lemma BlankFailsEveryRule(f: Field, v: string)
    requires AllSpace(v)
    ensures !Valid(f, v)
  {
    TightSliceIsTrim(v, |v|, |v|);
    assert Trim(v) == [];
    assert !EmailShape([]);
  }

  /** A trimmed, accepted email is a single `@`-separated pair with no
      whitespace anywhere, in particular no line break. */
  lemma AcceptedEmailIsPlain(v: string)
    requires EmailValid(v)
    ensures forall k :: 0 <= k < |Trim(v)| ==> !IsSpace(Trim(v)[k])
    ensures '\n' !in Trim(v)
  {
    var t := Trim(v);
    var at := IndexOf(t, '@');
    var d := t[at + 1..];
    forall k | 0 <= k < |t| ensures !IsSpace(t[k]) {
      if k < at { assert t[k] == t[..at][k]; }
      else if k > at { assert t[k] == d[k - at - 1]; }
    }
  }

  /** For a value without surrounding whitespace the email rule is the bare
      shape test. */
  lemma TightEmailValid(t: string)
    requires Tight(t)
    ensures EmailValid(t) <==> EmailShape(t)
  {
    TightIsOwnTrim(t);
  }

  /** The shape test holds when the first `@` sits at `at`, with plain text
      before it and a dot at `dot` inside the plain domain after it. */
  lemma ShapeAt(t: string, at: nat, dot: nat)
    requires 0 < at && at + 1 < dot < |t| - 1 && t[at] == '@' && t[dot] == '.'
    requires AllPlain(t[..at]) && AllPlain(t[at + 1..])
    ensures EmailShape(t)
  {
    IndexOfIs(t, '@', at);
    assert t[at + 1..][dot - at - 1] == '.';
  }

  /* Worked examples of the three rules, one literal per lemma; the lemmas
     named after the rules gather them. */

  lemma NameExamples()
    ensures !NameValid("A") && NameValid("Al")
    ensures !NameValid(" A\t") && NameValid("  Al \n")
  {
    TightIsOwnTrim("A");
    TightIsOwnTrim("Al");
    PaddedOneChar();
    PaddedTwoChars();
  }

  lemma PaddedOneChar()
    ensures !NameValid(" A\t")
  {
    var t := " A\t";
    assert t[1..2] == "A";
    TightSliceIsTrim(t, 1, 2);
  }

  lemma PaddedTwoChars()
    ensures NameValid("  Al \n")
  {
    var t := "  Al \n";
    assert t[2..4] == "Al";
    TightSliceIsTrim(t, 2, 4);
  }

  /** Lengths are counted in UTF-16 code units: one emoji outside the Basic
      Multilingual Plane already meets the two-character minimum. */
  lemma NameCountsCodeUnits()
    ensures NameValid("\U{1F600}")
  {
  }

  lemma MessageExamples()
    ensures !MessageValid("123456789")
    ensures MessageValid("1234567890")
  {
    MessageNineFails();
    MessageTenPasses();
  }

  lemma MessageNineFails()
    ensures !MessageValid("123456789")
  {
    TightIsOwnTrim("123456789");
  }

  lemma MessageTenPasses()
    ensures MessageValid("1234567890")
  {
    TightIsOwnTrim("1234567890");
  }

  lemma EmailAcceptedExamples()
    ensures EmailValid("a@b.c")
    ensures EmailValid("jane@x.com")
  {
    ShortestAccepted();
    TypicalAccepted();
  }

  lemma ShortestAccepted()
    ensures EmailValid("a@b.c")
  {
    var t := "a@b.c";
    assert t[..1] == "a" && t[2..] == "b.c";
    ShapeAt(t, 1, 3);
    TightEmailValid(t);
  }

  lemma TypicalAccepted()
    ensures EmailValid("jane@x.com")
  {
    var t := "jane@x.com";
    assert t[..4] == "jane" && t[5..] == "x.com";
    ShapeAt(t, 4, 6);
    TightEmailValid(t);
  }

  lemma EmailRejectedExamples()
    ensures !EmailValid("abc")
    ensures !EmailValid("a@b.")
    ensures !EmailValid("a@.c")
  {
    NoAtRejected();
    TrailingDotRejected();
    LeadingDotRejected();
  }

  lemma NoAtRejected()
    ensures !EmailValid("abc")
  {
    IndexOfIs("abc", '@', 3);
    TightEmailValid("abc");
  }

  lemma TrailingDotRejected()
    ensures !EmailValid("a@b.")
  {
    IndexOfIs("a@b.", '@', 1);
    assert "a@b."[2..] == "b.";
    TightEmailValid("a@b.");
  }

  lemma LeadingDotRejected()
    ensures !EmailValid("a@.c")
  {
    IndexOfIs("a@.c", '@', 1);
    assert "a@.c"[2..] == ".c";
    TightEmailValid("a@.c");
  }

  lemma EmailSecondAtRejected()
    ensures !EmailValid("a@@b.c")
    ensures !EmailValid("@b.c")
  {
    DoubleAtRejected();
    EmptyLocalRejected();
  }

  lemma DoubleAtRejected()
    ensures !EmailValid("a@@b.c")
  {
    IndexOfIs("a@@b.c", '@', 1);
    assert "a@@b.c"[2..] == "@b.c";
    assert !Plain("@b.c"[0]);
    TightEmailValid("a@@b.c");
  }

  lemma EmptyLocalRejected()
    ensures !EmailValid("@b.c")
  {
    IndexOfIs("@b.c", '@', 0);
    TightEmailValid("@b.c");
  }
}
