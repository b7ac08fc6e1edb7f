/** The few `java.lang.String` operations the catalog relies on, written out over `seq<char>`. */
module Text {

  import opened Wrappers

  /** A nullable string as Java's string concatenation renders it. */
  function ConcatForm(s: Option<string>): string {
    match s
    case Some(t) => t
    case None => "null"
  }

  /** `String.trim()` removes every leading and trailing character up to U+0020. */
  predicate IsTrimmable(c: char) {
    c <= ' '
  }

  function TrimLeading(s: string): (r: string)
    ensures |r| <= |s| && r == s[|s| - |r|..]
    ensures r != [] ==> !IsTrimmable(r[0])
  {
    if s != [] && IsTrimmable(s[0]) then TrimLeading(s[1..]) else s
  }

  function TrimTrailing(s: string): (r: string)
    ensures |r| <= |s| && r == s[..|r|]
    ensures r != [] ==> !IsTrimmable(r[|r| - 1])
  {
    if s != [] && IsTrimmable(s[|s| - 1]) then TrimTrailing(s[..|s| - 1]) else s
  }

  /** `String.trim()`. */
  function Trim(s: string): string {
    TrimTrailing(TrimLeading(s))
  }

  /** `s == null || s.trim().isEmpty()`, the presence test used by the validators. */
  predicate IsNullOrBlank(s: Option<string>) {
    s.None? || Trim(s.value) == []
  }

  lemma {:induction false} TrimLeadingEmpty(s: string)
    ensures TrimLeading(s) == [] <==> forall i :: 0 <= i < |s| ==> IsTrimmable(s[i])
  {
    if s != [] && IsTrimmable(s[0]) {
      TrimLeadingEmpty(s[1..]);
      assert forall i :: 1 <= i < |s| ==> s[i] == s[1..][i - 1];
    }
  }

  lemma {:induction false} TrimTrailingEmpty(s: string)
    ensures TrimTrailing(s) == [] ==> forall i :: 0 <= i < |s| ==> IsTrimmable(s[i])
  {
    if s != [] && IsTrimmable(s[|s| - 1]) {
      TrimTrailingEmpty(s[..|s| - 1]);
    }
  }

  /** A string is blank after `trim()` exactly when every character is at most U+0020. */
  lemma TrimEmptyIffAllTrimmable(s: string)
    ensures Trim(s) == [] <==> forall i :: 0 <= i < |s| ==> IsTrimmable(s[i])
  {
    TrimLeadingEmpty(s);
    var t := TrimLeading(s);
    TrimTrailingEmpty(t);
  }

  /** `s.replaceAll("-", "")` and the like: every occurrence of `c` removed, the rest kept in order. */
  function RemoveChar(s: string, c: char): (r: string)
    ensures c !in r
  {
    if s == [] then []
    else if s[0] == c then RemoveChar(s[1..], c)
    else [s[0]] + RemoveChar(s[1..], c)
  }

  /** Removing a character shortens the string by its number of occurrences. */
  lemma {:induction false} RemoveCharLength(s: string, c: char)
    ensures |RemoveChar(s, c)| == |s| - multiset(s)[c]
  {
    if s != [] {
      RemoveCharLength(s[1..], c);
      assert s == [s[0]] + s[1..];
      assert multiset(s) == multiset{s[0]} + multiset(s[1..]);
    }
  }

  /** How many UTF-16 code units a character takes: two for a character above U+FFFF, one otherwise. */
  function UnitWidth(c: char): nat {
    if c as int <= 0xFFFF then 1 else 2
  }

  /** `String.length()`: the number of UTF-16 code units, which is the character count only when no character lies above U+FFFF. */
  function Utf16Length(s: string): (n: nat)
    ensures |s| <= n <= 2 * |s|
    ensures n == |s| <==> forall i :: 0 <= i < |s| ==> UnitWidth(s[i]) == 1
  {
    if s == [] then 0
    else
      var n := UnitWidth(s[0]) + Utf16Length(s[1..]);
      assert forall i :: 1 <= i < |s| ==> s[i] == s[1..][i - 1];
      n
  }

  /** The UTF-16 length of a concatenation is the sum of the lengths. */
  lemma {:induction false} Utf16LengthAppend(a: string, b: string)
    ensures Utf16Length(a + b) == Utf16Length(a) + Utf16Length(b)
  {
    if a != [] {
      Utf16LengthAppend(a[1..], b);
      assert (a + b)[0] == a[0];
      assert (a + b)[1..] == a[1..] + b;
    } else {
      assert a + b == b;
    }
  }

  /** Removing a one-unit character shortens the UTF-16 length by its number of occurrences. */
  lemma {:induction false} RemoveCharUtf16Length(s: string, c: char)
    requires UnitWidth(c) == 1
    ensures Utf16Length(RemoveChar(s, c)) == Utf16Length(s) - multiset(s)[c]
  {
    if s != [] {
      RemoveCharUtf16Length(s[1..], c);
      assert s == [s[0]] + s[1..];
      assert multiset(s) == multiset{s[0]} + multiset(s[1..]);
      if s[0] != c {
        assert RemoveChar(s, c)[1..] == RemoveChar(s[1..], c);
      }
    }
  }

  /** `Character.toLowerCase` restricted to what can matter for ASCII keys. */
  function LowerChar(c: char): char {
    if 'A' <= c <= 'Z' then (c as int + 32) as char else c
  }

  /** `String.toLowerCase()` (see README for the locale caveat). */
  function ToLower(s: string): (r: string)
    ensures |r| == |s|
    ensures forall i :: 0 <= i < |s| ==> r[i] == LowerChar(s[i])
  {
    if s == [] then [] else [LowerChar(s[0])] + ToLower(s[1..])
  }

  predicate IsLowerWord(w: string) {
    forall i :: 0 <= i < |w| ==> 'a' <= w[i] <= 'z'
  }

  /** `s` spells `w` with any mix of upper- and lower-case letters. */
  predicate MatchesIgnoringCase(s: string, w: string) {
    |s| == |w| && forall i :: 0 <= i < |s| ==> s[i] == w[i] || s[i] as int == w[i] as int - 32
  }

  /** Lower-casing a key and comparing it with a lower-case word is a case-insensitive comparison. */
  lemma ToLowerMatches(s: string, w: string)
    requires IsLowerWord(w)
    ensures ToLower(s) == w <==> MatchesIgnoringCase(s, w)
  {
    if MatchesIgnoringCase(s, w) {
      assert forall i :: 0 <= i < |s| ==> ToLower(s)[i] == w[i];
    }
  }

  function DigitChar(d: nat): (c: char)
    requires d < 10
    ensures '0' <= c <= '9'
  {
    ('0' as int + d) as char
  }

  /** `Long.toString` for a non-negative value. */
  function NatToString(n: nat): (r: string)
    ensures r != []
    ensures forall i :: 0 <= i < |r| ==> '0' <= r[i] <= '9'
  {
    if n < 10 then [DigitChar(n)] else NatToString(n / 10) + [DigitChar(n % 10)]
  }

  /** `Long.parseLong` on a non-empty string of decimal digits. */
  function DigitsValue(s: string): nat
    requires forall i :: 0 <= i < |s| ==> '0' <= s[i] <= '9'
  {
    if s == [] then 0 else DigitsValue(s[..|s| - 1]) * 10 + (s[|s| - 1] as int - '0' as int)
  }

  /** The decimal text of an identifier reads back as that identifier. */
  lemma {:induction false} NatToStringRoundTrip(n: nat)
    ensures DigitsValue(NatToString(n)) == n
  {
    if n >= 10 {
      NatToStringRoundTrip(n / 10);
      var r := NatToString(n);
      assert r[..|r| - 1] == NatToString(n / 10);
    }
  }
}
