/** StringUtil: null-safe string predicates, reversal, padding and
    any-prefix / any-suffix matching. A Java `String` that may be null is an
    `Option<string>`; a `String...` argument that may be null, and whose
    elements may be null, is an `Option<seq<Option<string>>>`. */
module StringUtil {
  import opened Wrappers

  /** java.lang.Character.isWhitespace: the Unicode space, line and paragraph
      separators other than the non-breaking spaces U+00A0, U+2007 and
      U+202F, together with U+0009 to U+000D and U+001C to U+001F. No
      printable Latin-1 character is whitespace, nor is any no-break space. */
  function IsWhitespace(c: char): (ws: bool)
    ensures ws ==> c <= ' ' || '\U{1680}' <= c <= '\U{3000}'
    ensures c == '\U{A0}' || c == '\U{2007}' || c == '\U{202F}' ==> !ws
  {
    || c == ' '
    || '\t' <= c <= '\r'
    || '\U{1C}' <= c <= '\U{1F}'
    || c == '\U{1680}'
    || '\U{2000}' <= c <= '\U{2006}'
    || '\U{2008}' <= c <= '\U{200A}'
    || c == '\U{2028}' || c == '\U{2029}'
    || c == '\U{205F}'
    || c == '\U{3000}'
  }

  /** Index of the first character that is not whitespace, or |s| if there is
      none (the scan behind String.isBlank and String.strip). */
  function IndexOfNonWhitespace(s: string): (k: nat)
    ensures k <= |s|
    ensures forall i :: 0 <= i < k ==> IsWhitespace(s[i])
    ensures k < |s| ==> !IsWhitespace(s[k])
  {
    if s == [] || !IsWhitespace(s[0]) then 0 else 1 + IndexOfNonWhitespace(s[1..])
  }

  /** String.isBlank on a non-null string: the scan for a non-whitespace
      character runs off the end exactly when every character is
      whitespace. */
  function IsBlankString(s: string): (blank: bool)
    ensures blank <==> forall i :: 0 <= i < |s| ==> IsWhitespace(s[i])
  {
    IndexOfNonWhitespace(s) == |s|
  }

  /** isEmpty: null or of length zero. */
  function IsEmpty(text: Option<string>): (r: bool)
    ensures r <==> text == None || text == Some("")
  {
    text.None? || |text.value| == 0
  }

  /** isBlank: null or made of whitespace only. */
  function IsBlank(text: Option<string>): (r: bool)
    ensures r <==> text.None? || forall i :: 0 <= i < |text.value| ==> IsWhitespace(text.value[i])
  {
    text.None? || IsBlankString(text.value)
  }

  /** Every empty text is blank; a lone space is blank and not empty, as are
      a tab and a newline in the other direction of the table of examples. */
  lemma EmptyIsBlank(text: Option<string>)
    ensures IsEmpty(text) ==> IsBlank(text)
    ensures IsBlank(Some(" ")) && !IsEmpty(Some(" "))
    ensures IsBlank(Some("\t")) && IsBlank(Some("\n"))
    ensures !IsBlank(Some("text")) && !IsBlank(Some("_"))
  {
    assert !IsWhitespace("text"[0]);
    assert !IsWhitespace("_"[0]);
  }

  /** The characters of `s` in the opposite order. */
  function Reversed(s: string): (r: string)
    ensures |r| == |s|
    ensures forall i :: 0 <= i < |s| ==> r[i] == s[|s| - 1 - i]
  {
    if s == [] then [] else Reversed(s[1..]) + [s[0]]
  }

  /** reverse: null stays null, anything else is reversed. */
  function Reverse(text: Option<string>): (r: Option<string>)
    ensures r.None? <==> text.None?
    ensures text.Some? ==> |r.value| == |text.value|
    ensures text.Some? ==> forall i :: 0 <= i < |text.value| ==> r.value[i] == text.value[|text.value| - 1 - i]
  {
    if text.None? then None else Some(Reversed(text.value))
  }

  /** Reversing twice gives back the input. */
  lemma ReverseInvolutive(text: Option<string>)
    ensures Reverse(Reverse(text)) == text
  {
    if text.Some? {
      var s := text.value;
      assert Reversed(Reversed(s)) == s;
    }
  }

  lemma ReverseExamples()
    ensures Reverse(Some("a")) == Some("a")
    ensures Reverse(Some("xyz")) == Some("zyx")
    ensures Reverse(Some("abba")) == Some("abba")
  {
    assert Reversed("a") == "a";
    assert Reversed("xyz") == "zyx";
    assert Reversed("abba") == "abba";
  }

  /** String.valueOf(c).repeat(n). */
  function Repeat(c: char, n: nat): (r: string)
    ensures |r| == n
    ensures forall i :: 0 <= i < n ==> r[i] == c
  {
    if n == 0 then [] else [c] + Repeat(c, n - 1)
  }

  /** String.length: the number of UTF-16 code units, two for a character
      outside the Basic Multilingual Plane. */
  function Utf16Length(s: string): (n: nat)
    ensures |s| <= n <= 2 * |s|
  {
    if s == [] then 0 else (if s[0] > '\U{FFFF}' then 2 else 1) + Utf16Length(s[1..])
  }

  /** The code units of a concatenation are those of its parts. */
  lemma {:induction false} Utf16LengthConcat(x: string, y: string)
    ensures Utf16Length(x + y) == Utf16Length(x) + Utf16Length(y)
  {
    if x == [] {
      assert x + y == y;
    } else {
      assert (x + y)[0] == x[0] && (x + y)[1..] == x[1..] + y;
      Utf16LengthConcat(x[1..], y);
    }
  }

  /** Reversing the characters keeps the number of code units. */
  lemma {:induction false} Utf16LengthReversed(s: string)
    ensures Utf16Length(Reversed(s)) == Utf16Length(s)
  {
    if s != [] {
      Utf16LengthReversed(s[1..]);
      Utf16LengthConcat(Reversed(s[1..]), [s[0]]);
    }
  }

  /** Text made only of Basic Multilingual Plane characters has one code
      unit per character. */
  lemma {:induction false} Utf16LengthBmp(s: string)
    requires forall i :: 0 <= i < |s| ==> s[i] <= '\U{FFFF}'
    ensures Utf16Length(s) == |s|
  {
    if s != [] {
      Utf16LengthBmp(s[1..]);
    }
  }

  /** A run of one Basic Multilingual Plane character is one code unit per
      copy. */
  lemma {:induction false} Utf16LengthRepeat(c: char, n: nat)
    requires c <= '\U{FFFF}'
    ensures Utf16Length(Repeat(c, n)) == n
  {
    if n > 0 {
      assert Repeat(c, n)[1..] == Repeat(c, n - 1);
      Utf16LengthRepeat(c, n - 1);
    }
  }

  /** The text the padding works on: null is taken as "". */
  function OrEmpty(text: Option<string>): string {
    if text.None? then "" else text.value
  }

  /** padLeading: pad on the left up to `expectedLength` code units; a text
      at least that long is returned unchanged. The pad is a Java `char`,
      one code unit of the Basic Multilingual Plane. */
  function PadLeading(text: Option<string>, pad: char, expectedLength: int): (r: string)
    requires pad <= '\U{FFFF}'
    ensures Utf16Length(OrEmpty(text)) >= expectedLength ==> r == OrEmpty(text)
    ensures Utf16Length(r) ==
      if Utf16Length(OrEmpty(text)) >= expectedLength then Utf16Length(OrEmpty(text)) else expectedLength
    ensures |r| >= |OrEmpty(text)| && r[|r| - |OrEmpty(text)|..] == OrEmpty(text)
    ensures forall i :: 0 <= i < |r| - |OrEmpty(text)| ==> r[i] == pad
  {
    var t := OrEmpty(text);
    if Utf16Length(t) >= expectedLength then t
    else
      var fill := Repeat(pad, expectedLength - Utf16Length(t));
      Utf16LengthRepeat(pad, |fill|);
      Utf16LengthConcat(fill, t);
      fill + t
  }

  /** padTrailing: the mirror image of padLeading. */
  function PadTrailing(text: Option<string>, pad: char, expectedLength: int): (r: string)
    requires pad <= '\U{FFFF}'
    ensures Utf16Length(OrEmpty(text)) >= expectedLength ==> r == OrEmpty(text)
    ensures Utf16Length(r) ==
      if Utf16Length(OrEmpty(text)) >= expectedLength then Utf16Length(OrEmpty(text)) else expectedLength
    ensures |r| >= |OrEmpty(text)| && r[..|OrEmpty(text)|] == OrEmpty(text)
    ensures forall i :: |OrEmpty(text)| <= i < |r| ==> r[i] == pad
  {
    var t := OrEmpty(text);
    if Utf16Length(t) >= expectedLength then t
    else
      var fill := Repeat(pad, expectedLength - Utf16Length(t));
      Utf16LengthRepeat(pad, |fill|);
      Utf16LengthConcat(t, fill);
      t + fill
  }

  /** The two paddings put the same characters on opposite sides: reversing
      a left-padded text gives the right-padded reversal. */
  lemma {:induction false} PadLeadingMirrorsPadTrailing(s: string, pad: char, expectedLength: int)
    requires pad <= '\U{FFFF}'
    ensures Reversed(PadLeading(Some(s), pad, expectedLength)) == PadTrailing(Some(Reversed(s)), pad, expectedLength)
  {
    Utf16LengthReversed(s);
    if Utf16Length(s) < expectedLength {
      var fill := Repeat(pad, expectedLength - Utf16Length(s));
      ReversedConcat(fill, s);
      assert Reversed(fill) == fill;
    }
  }

  /** Reversing a concatenation reverses the order of the parts. */
  lemma ReversedConcat(x: string, y: string)
    ensures Reversed(x + y) == Reversed(y) + Reversed(x)
  {
    var a, b := Reversed(x + y), Reversed(y) + Reversed(x);
    forall i | 0 <= i < |a| ensures a[i] == b[i] {
      if i < |y| {
        assert a[i] == (x + y)[|x| + |y| - 1 - i];
      }
    }
  }

  lemma PaddingExamples()
    ensures PadLeading(None, 'a', 5) == "aaaaa" && PadTrailing(None, 'a', 5) == "aaaaa"
    ensures PadLeading(Some("xyz"), '_', 4) == "_xyz" && PadTrailing(Some("xyz"), '_', 4) == "xyz_"
    ensures PadLeading(Some("xyz"), '_', 2) == "xyz" && PadTrailing(Some("xyz"), '_', 2) == "xyz"
    ensures PadLeading(Some(""), 'x', 1) == "x" && PadTrailing(Some(""), 'x', 1) == "x"
  {
    assert Repeat('a', 5) == "aaaaa";
    assert Repeat('_', 1) == "_" && Repeat('x', 1) == "x";
    Utf16LengthBmp("xyz");
  }

  /** A character outside the Basic Multilingual Plane counts twice towards
      the expected length: one pad fills a single emoji up to three code
      units, and two emoji already reach them. */
  lemma PaddingCountsCodeUnits()
    ensures PadLeading(Some("\U{1F600}"), 'x', 3) == "x\U{1F600}"
    ensures PadTrailing(Some("\U{1F600}\U{1F600}"), 'x', 3) == "\U{1F600}\U{1F600}"
  {
    var e := "\U{1F600}";
    assert Utf16Length(e) == 2 by { assert e[1..] == []; }
    Utf16LengthConcat(e, e);
    assert Repeat('x', 1) == "x";
  }

  /** String.startsWith and String.endsWith. */
  predicate StartsWith(text: string, prefix: string) {
    |prefix| <= |text| && text[..|prefix|] == prefix
  }

  predicate EndsWith(text: string, suffix: string) {
    |suffix| <= |text| && text[|text| - |suffix|..] == suffix
  }

  datatype Side = Prefix | Suffix

  predicate Matches(text: string, candidate: string, side: Side) {
    match side
    case Prefix => StartsWith(text, candidate)
    case Suffix => EndsWith(text, candidate)
  }

  /** A candidate longer than the text never matches it. */
  lemma LongerNeverMatches(text: string, candidate: string, side: Side)
    requires |candidate| > |text|
    ensures !Matches(text, candidate, side)
  {
  }

  predicate NoNulls(candidates: seq<Option<string>>) {
    forall k :: 0 <= k < |candidates| ==> candidates[k].Some?
  }

  /** Some candidate is null, and every candidate before the first null is
      present and does not match. */
  predicate NullBeforeAnyMatch(text: string, candidates: seq<Option<string>>, side: Side) {
    exists k :: 0 <= k < |candidates| && candidates[k].None? &&
      (forall j :: 0 <= j < k ==> candidates[j].Some? && !Matches(text, candidates[j].value, side))
  }

  /** Some candidate matches, and every candidate before it is present. */
  predicate MatchBeforeAnyNull(text: string, candidates: seq<Option<string>>, side: Side) {
    exists m :: 0 <= m < |candidates| && candidates[m].Some? && Matches(text, candidates[m].value, side) &&
      (forall j :: 0 <= j < m ==> candidates[j].Some?)
  }

  /** A Java stream's anyMatch over the candidates, left to right: it stops at
      the first match, and a null candidate reached before any match throws a
      NullPointerException. */
  function AnyMatch(text: string, candidates: seq<Option<string>>, side: Side): (r: Result<bool, JavaException>)
    ensures r == Ok(true) ==> MatchBeforeAnyNull(text, candidates, side)
    ensures r == Ok(false) ==>
      forall k :: 0 <= k < |candidates| ==> candidates[k].Some? && !Matches(text, candidates[k].value, side)
    ensures r.Err? ==> r.error == NullPointerException && NullBeforeAnyMatch(text, candidates, side)
  {
    if candidates == [] then Ok(false)
    else if candidates[0].None? then
      assert NullBeforeAnyMatch(text, candidates, side) by { assert candidates[0].None?; }
      Err(NullPointerException)
    else if Matches(text, candidates[0].value, side) then
      assert MatchBeforeAnyNull(text, candidates, side) by { assert candidates[0].Some?; }
      Ok(true)
    else
      var tail := candidates[1..];
      var r := AnyMatch(text, tail, side);
      assert r.Err? ==> NullBeforeAnyMatch(text, candidates, side) by {
        if r.Err? {
          var k :| 0 <= k < |tail| && tail[k].None? &&
            (forall j :: 0 <= j < k ==> tail[j].Some? && !Matches(text, tail[j].value, side));
          assert candidates[k + 1].None?;
          forall j | 0 <= j < k + 1 ensures candidates[j].Some? && !Matches(text, candidates[j].value, side) {
            if j > 0 { assert candidates[j] == tail[j - 1]; }
          }
        }
      }
      assert r == Ok(true) ==> MatchBeforeAnyNull(text, candidates, side) by {
        if r == Ok(true) {
          var m :| 0 <= m < |tail| && tail[m].Some? && Matches(text, tail[m].value, side) &&
            (forall j :: 0 <= j < m ==> tail[j].Some?);
          assert candidates[m + 1] == tail[m];
          forall j | 0 <= j < m + 1 ensures candidates[j].Some? {
            if j > 0 { assert candidates[j] == tail[j - 1]; }
          }
        }
      }
      assert r == Ok(false) ==> forall k :: 0 <= k < |candidates| ==>
        candidates[k].Some? && !Matches(text, candidates[k].value, side) by {
        if r == Ok(false) {
          forall k | 0 <= k < |candidates| ensures candidates[k].Some? && !Matches(text, candidates[k].value, side) {
            if k > 0 { assert candidates[k] == tail[k - 1]; }
          }
        }
      }
      r
  }

  /** Without null candidates anyMatch answers whether some candidate matches. */
  lemma AnyMatchWithoutNulls(text: string, candidates: seq<Option<string>>, side: Side)
    requires NoNulls(candidates)
    ensures AnyMatch(text, candidates, side) ==
      Ok(exists k :: 0 <= k < |candidates| && Matches(text, candidates[k].value, side))
  {
  }

  /** The guard shared by the four matchers: no text, no candidate array or
      an empty one gives false. */
  predicate NothingToMatch(text: Option<string>, candidates: Option<seq<Option<string>>>) {
    candidates.None? || |candidates.value| == 0 || text.None?
  }

  /** Lower-cases one character: the ASCII and Latin-1 capitals map to their
      small letters, every other character is kept. */
  function LowerChar(c: char): char {
    if 'A' <= c <= 'Z' || ('\U{C0}' <= c <= '\U{DE}' && c != '\U{D7}') then (c as int + 32) as char else c
  }

  /** String.toLowerCase, one character at a time. */
  function ToLower(s: string): (r: string)
    ensures |r| == |s| && forall i :: 0 <= i < |s| ==> r[i] == LowerChar(s[i])
  {
    seq(|s|, i requires 0 <= i < |s| => LowerChar(s[i]))
  }

  /** map(String::toLowerCase) over the candidates; a null stays null (the
      stream throws on it when it gets there). */
  function LowerCandidates(candidates: seq<Option<string>>): (r: seq<Option<string>>)
    ensures |r| == |candidates|
    ensures forall k :: 0 <= k < |r| ==> r[k].Some? == candidates[k].Some?
    ensures forall k :: 0 <= k < |r| && r[k].Some? ==> r[k].value == ToLower(candidates[k].value)
  {
    seq(|candidates|, k requires 0 <= k < |candidates| =>
      if candidates[k].None? then None else Some(ToLower(candidates[k].value)))
  }

  /** The candidates are all present after lower-casing, and the k-th one
      matches the lower-cased text exactly when its lower-cased form does. */
  lemma LoweredWithoutNulls(text: string, candidates: seq<Option<string>>, side: Side)
    requires NoNulls(candidates)
    ensures NoNulls(LowerCandidates(candidates))
    ensures AnyMatch(ToLower(text), LowerCandidates(candidates), side) ==
      Ok(exists k :: 0 <= k < |candidates| && Matches(ToLower(text), ToLower(candidates[k].value), side))
  {
    var lowered := LowerCandidates(candidates);
    AnyMatchWithoutNulls(ToLower(text), lowered, side);
    assert forall k :: 0 <= k < |candidates| ==> lowered[k].value == ToLower(candidates[k].value);
  }

  /** startsWithAny */
  function StartsWithAny(text: Option<string>, starters: Option<seq<Option<string>>>): (r: Result<bool, JavaException>)
    ensures NothingToMatch(text, starters) ==> r == Ok(false)
    ensures !NothingToMatch(text, starters) && NoNulls(starters.value) ==>
      r == Ok(exists k :: 0 <= k < |starters.value| && StartsWith(text.value, starters.value[k].value))
  {
    if NothingToMatch(text, starters) then Ok(false)
    else if NoNulls(starters.value) then
      AnyMatchWithoutNulls(text.value, starters.value, Prefix);
      AnyMatch(text.value, starters.value, Prefix)
    else AnyMatch(text.value, starters.value, Prefix)
  }

  /** startsWithAnyIgnoreCase: the same test on lower-cased text and
      lower-cased candidates. */
  function StartsWithAnyIgnoreCase(text: Option<string>, starters: Option<seq<Option<string>>>): (r: Result<bool, JavaException>)
    ensures NothingToMatch(text, starters) ==> r == Ok(false)
    ensures !NothingToMatch(text, starters) && NoNulls(starters.value) ==>
      r == Ok(exists k :: 0 <= k < |starters.value| &&
                StartsWith(ToLower(text.value), ToLower(starters.value[k].value)))
  {
    if NothingToMatch(text, starters) then Ok(false)
    else if NoNulls(starters.value) then
      LoweredWithoutNulls(text.value, starters.value, Prefix);
      AnyMatch(ToLower(text.value), LowerCandidates(starters.value), Prefix)
    else AnyMatch(ToLower(text.value), LowerCandidates(starters.value), Prefix)
  }

  /** endsWithAny */
  function EndsWithAny(text: Option<string>, enders: Option<seq<Option<string>>>): (r: Result<bool, JavaException>)
    ensures NothingToMatch(text, enders) ==> r == Ok(false)
    ensures !NothingToMatch(text, enders) && NoNulls(enders.value) ==>
      r == Ok(exists k :: 0 <= k < |enders.value| && EndsWith(text.value, enders.value[k].value))
  {
    if NothingToMatch(text, enders) then Ok(false)
    else if NoNulls(enders.value) then
      AnyMatchWithoutNulls(text.value, enders.value, Suffix);
      AnyMatch(text.value, enders.value, Suffix)
    else AnyMatch(text.value, enders.value, Suffix)
  }

  /** endsWithAnyIgnoreCase */
  function EndsWithAnyIgnoreCase(text: Option<string>, enders: Option<seq<Option<string>>>): (r: Result<bool, JavaException>)
    ensures NothingToMatch(text, enders) ==> r == Ok(false)
    ensures !NothingToMatch(text, enders) && NoNulls(enders.value) ==>
      r == Ok(exists k :: 0 <= k < |enders.value| &&
                EndsWith(ToLower(text.value), ToLower(enders.value[k].value)))
  {
    if NothingToMatch(text, enders) then Ok(false)
    else if NoNulls(enders.value) then
      LoweredWithoutNulls(text.value, enders.value, Suffix);
      AnyMatch(ToLower(text.value), LowerCandidates(enders.value), Suffix)
    else AnyMatch(ToLower(text.value), LowerCandidates(enders.value), Suffix)
  }

  /** Lower-casing both sides keeps a match. */
  lemma LowerKeepsMatch(text: string, candidate: string, side: Side)
    requires Matches(text, candidate, side)
    ensures Matches(ToLower(text), ToLower(candidate), side)
  {
    var t, c := ToLower(text), ToLower(candidate);
    match side
    case Prefix =>
      assert t[..|c|] == c by {
        forall i | 0 <= i < |c| ensures t[i] == c[i] {
          assert text[..|candidate|][i] == candidate[i];
        }
      }
    case Suffix =>
      assert t[|t| - |c|..] == c by {
        forall i | 0 <= i < |c| ensures t[|t| - |c| + i] == c[i] {
          assert text[|text| - |candidate|..][i] == candidate[i];
        }
      }
  }

  /** Lower-casing the text and the candidates keeps a successful match. */
  lemma LoweredAnyMatchKeepsTrue(text: string, candidates: seq<Option<string>>, side: Side)
    requires AnyMatch(text, candidates, side) == Ok(true)
    ensures AnyMatch(ToLower(text), LowerCandidates(candidates), side) == Ok(true)
  {
    var m :| 0 <= m < |candidates| && candidates[m].Some? && Matches(text, candidates[m].value, side) &&
      (forall j :: 0 <= j < m ==> candidates[j].Some?);
    LowerKeepsMatch(text, candidates[m].value, side);
    var lowered := LowerCandidates(candidates);
    var r := AnyMatch(ToLower(text), lowered, side);
    assert lowered[m].Some? && Matches(ToLower(text), lowered[m].value, side);
    if r.Err? {
      assert false;
    }
    if !r.value {
      assert false;
    }
  }

  /** Every case-sensitive match is also an ignore-case match. */
  lemma CaseSensitiveMatchImpliesIgnoreCase(text: Option<string>, candidates: Option<seq<Option<string>>>)
    ensures StartsWithAny(text, candidates) == Ok(true) ==> StartsWithAnyIgnoreCase(text, candidates) == Ok(true)
    ensures EndsWithAny(text, candidates) == Ok(true) ==> EndsWithAnyIgnoreCase(text, candidates) == Ok(true)
  {
    if !NothingToMatch(text, candidates) {
      if StartsWithAny(text, candidates) == Ok(true) {
        LoweredAnyMatchKeepsTrue(text.value, candidates.value, Prefix);
      }
      if EndsWithAny(text, candidates) == Ok(true) {
        LoweredAnyMatchKeepsTrue(text.value, candidates.value, Suffix);
      }
    }
  }

  lemma GuardExamples()
    ensures StartsWithAny(None, Some([Some("a"), Some("b")])) == Ok(false)
    ensures StartsWithAny(Some("abc"), None) == Ok(false)
    ensures StartsWithAny(Some("abc"), Some([])) == Ok(false)
    ensures EndsWithAnyIgnoreCase(None, Some([Some("a"), Some("b")])) == Ok(false)
  {
  }

  lemma PrefixExamples()
    ensures StartsWithAny(Some("abc"), Some([Some("a"), Some("b"), Some("c")])) == Ok(true)
    ensures StartsWithAny(Some("abc"), Some([Some("A")])) == Ok(false)
    ensures StartsWithAny(Some("abc"), Some([Some("abcd")])) == Ok(false)
  {
    assert StartsWith("abc", "a");
    assert !StartsWith("abc", "A") by { assert "abc"[..1][0] != "A"[0]; }
  }

  lemma IgnoreCaseExamples()
    ensures StartsWithAnyIgnoreCase(Some("abc"), Some([Some("aBc")])) == Ok(true)
    ensures EndsWithAnyIgnoreCase(Some("abc"), Some([Some("C")])) == Ok(true)
  {
    assert ToLower("aBc") == "abc";
    assert ToLower("abc") == "abc";
    assert ToLower("C") == "c";
    assert StartsWith(ToLower("abc"), ToLower("aBc"));
    assert EndsWith(ToLower("abc"), ToLower("C"));
  }

  lemma SuffixExamples()
    ensures EndsWithAny(Some("abc"), Some([Some("a"), Some("b"), Some("c")])) == Ok(true)
    ensures EndsWithAny(Some("abc"), Some([Some("cb")])) == Ok(false)
    ensures EndsWithAny(Some("abc"), Some([Some("_abc")])) == Ok(false)
  {
    assert EndsWith("abc", "c");
    assert !EndsWith("abc", "cb") by { assert "abc"[1..][0] != "cb"[0]; }
  }
}
