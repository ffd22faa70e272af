/** The parts of java.lang that the test-system code relies on: the String methods
    indexOf, contains, toLowerCase, equalsIgnoreCase, replace, split and hashCode,
    and the decimal form of an int. Case mapping is restricted to ASCII. */
module JavaLang {

  /** The exceptions the modelled code can raise. */
  datatype Exception =
    | ArrayIndexOutOfBounds   // indexing an empty array
    | NullPointer             // dereferencing a null field
    | SocketFailure           // a result channel that could not be opened

  // ---------------------------------------------------------------------------
  // String.indexOf and String.contains

  /** `mark` occurs in `s` starting at index `i`. */
  predicate OccursAt(s: string, mark: string, i: int) {
    0 <= i && i + |mark| <= |s| && s[i..i + |mark|] == mark
  }

  /** String.indexOf(mark, from): the first occurrence at or after `from`, or -1. */
  function IndexOfFrom(s: string, mark: string, from: nat): (r: int)
    requires from <= |s|
    decreases |s| - from
    ensures r == -1 || (from <= r && OccursAt(s, mark, r))
    ensures r == -1 ==> forall i :: from <= i ==> !OccursAt(s, mark, i)
    ensures r != -1 ==> forall i :: from <= i < r ==> !OccursAt(s, mark, i)
  {
    if |s| < from + |mark| then -1
    else if s[from..from + |mark|] == mark then from
    else IndexOfFrom(s, mark, from + 1)
  }

  /** String.indexOf(mark): the index of the first occurrence of `mark`, or -1. */
  function IndexOf(s: string, mark: string): (r: int)
    ensures r == -1 || OccursAt(s, mark, r)
    ensures r == -1 <==> forall i :: !OccursAt(s, mark, i)
    ensures forall i :: 0 <= i < r ==> !OccursAt(s, mark, i)
  {
    IndexOfFrom(s, mark, 0)
  }

  /** String.contains(mark), which Java defines as indexOf(mark) > -1. */
  function Contains(s: string, mark: string): (b: bool)
    ensures b <==> exists i :: OccursAt(s, mark, i)
  {
    IndexOf(s, mark) > -1
  }

  // ---------------------------------------------------------------------------
  // String.toLowerCase and String.equalsIgnoreCase, over ASCII

  function LowerChar(c: char): char {
    if 'A' <= c <= 'Z' then (c as int + 32) as char else c
  }

  predicate IsLower(s: string) {
    forall i :: 0 <= i < |s| ==> LowerChar(s[i]) == s[i]
  }

  /** String.toLowerCase: every character mapped on its own, so the length is kept. */
  function ToLower(s: string): (r: string)
    ensures |r| == |s|
    ensures forall i :: 0 <= i < |s| ==> r[i] == LowerChar(s[i])
    ensures IsLower(r)
  {
    if s == [] then [] else [LowerChar(s[0])] + ToLower(s[1..])
  }

  /** String.equalsIgnoreCase: same length and the characters agree pairwise up to case. */
  predicate EqualsIgnoreCase(a: string, b: string) {
    |a| == |b| && forall i :: 0 <= i < |a| ==> LowerChar(a[i]) == LowerChar(b[i])
  }

  // ---------------------------------------------------------------------------
  // String.replace(CharSequence, CharSequence): every non-overlapping occurrence,
  // from left to right

  function ReplaceAll(s: string, target: string, replacement: string): (r: string)
    requires |target| > 0
    decreases |s|
    ensures !Contains(s, target) ==> r == s
  {
    var i := IndexOf(s, target);
    if i < 0 then s else s[..i] + replacement + ReplaceAll(s[i + |target|..], target, replacement)
  }

  // ---------------------------------------------------------------------------
  // String.split(String) with a one-character, non-regex separator

  /** Every field between separators, empty ones included. */
  function SplitAll(s: string, sep: char): (parts: seq<string>)
    ensures |parts| >= 1
    ensures forall k :: 0 <= k < |parts| ==> sep !in parts[k]
  {
    if s == [] then [[]]
    else
      var rest := SplitAll(s[1..], sep);
      if s[0] == sep then [[]] + rest else [[s[0]] + rest[0]] + rest[1..]
  }

  /** The fields with `sep` between neighbours; with a one-character `sep` the inverse of
      SplitAll. */
  function Join(parts: seq<string>, sep: string): (r: string) {
    if parts == [] then []
    else if |parts| == 1 then parts[0]
    else parts[0] + sep + Join(parts[1..], sep)
  }

  /** Drops the empty strings at the end, as split with limit zero does. */
  function DropTrailingEmpty(parts: seq<string>): (r: seq<string>)
    ensures r <= parts
    ensures r == [] || r[|r| - 1] != []
    ensures forall k :: |r| <= k < |parts| ==> parts[k] == []
  {
    if parts != [] && parts[|parts| - 1] == [] then DropTrailingEmpty(parts[..|parts| - 1])
    else parts
  }

  /** String.split: a string without the separator comes back as the only element (even
      the empty string); otherwise the fields, less the trailing empty ones. */
  function Split(s: string, sep: char): (r: seq<string>) {
    if sep !in s then [s] else DropTrailingEmpty(SplitAll(s, sep))
  }

  /** The characters of `s` before the first `sep`, or all of `s` when there is none. */
  function PrefixBefore(s: string, sep: char): (r: string)
    ensures r <= s
    ensures sep !in r
    ensures r == s || s[|r|] == sep
  {
    if s == [] || s[0] == sep then [] else [s[0]] + PrefixBefore(s[1..], sep)
  }

  predicate AllChars(s: string, c: char) {
    forall i :: 0 <= i < |s| ==> s[i] == c
  }

  // ---------------------------------------------------------------------------
  // String.hashCode: s[0]*31^(n-1) + ... + s[n-1] in 32-bit arithmetic

  function CharCode(c: char): (code: bv32) {
    (c as int % 0x1_0000_0000) as bv32
  }

  function HashCode(s: string): (h: bv32) {
    if s == [] then 0 else HashCode(s[..|s| - 1]) * 31 + CharCode(s[|s| - 1])
  }

  // ---------------------------------------------------------------------------
  // The decimal form of an int, as string concatenation writes it

  function Digit(d: nat): (c: char)
    requires d < 10
    ensures '0' <= c <= '9' && c as int - '0' as int == d
  {
    ('0' as int + d) as char
  }

  predicate IsDigits(s: string) {
    forall i :: 0 <= i < |s| ==> '0' <= s[i] <= '9'
  }

  /** No leading zero, except in "0" itself. */
  predicate Canonical(digits: string) {
    |digits| > 0 && (digits[0] == '0' ==> digits == "0")
  }

  function NatToString(n: nat): (r: string)
    ensures |r| > 0 && IsDigits(r) && Canonical(r)
    ensures r == "0" <==> n == 0
  {
    var r := (if n < 10 then [] else NatToString(n / 10)) + [Digit(n % 10)];
    assert n < 10 ==> r == [Digit(n)] && "0" == [Digit(0)];
    r
  }

  function IntToString(n: int): (r: string)
    ensures |r| > 0
    ensures r[0] == '-' <==> n < 0
    ensures IsDigits(if n < 0 then r[1..] else r) && Canonical(if n < 0 then r[1..] else r)
    ensures r == "0" <==> n == 0
  {
    if n < 0 then "-" + NatToString(-n) else NatToString(n)
  }

  /** The value of a string of decimal digits. */
  function DigitsValue(s: string): (v: nat)
    requires IsDigits(s)
  {
    if s == [] then 0 else DigitsValue(s[..|s| - 1]) * 10 + (s[|s| - 1] as int - '0' as int)
  }

  /** Integer.parseInt for the strings IntToString produces. */
  function ParseInt(s: string): (v: int)
    requires |s| > 0
    requires IsDigits(if s[0] == '-' then s[1..] else s)
  {
    if s[0] == '-' then -(DigitsValue(s[1..]) as int) else DigitsValue(s)
  }

  // ---------------------------------------------------------------------------
  // Properties of the library functions above

  /** Splitting and joining again gives the original string back. */
  lemma {:induction false} SplitJoin(s: string, sep: char)
    ensures Join(SplitAll(s, sep), [sep]) == s
  {
    if s != [] {
      var rest := SplitAll(s[1..], sep);
      SplitJoin(s[1..], sep);
      if s[0] == sep {
        assert ([[]] + rest)[1..] == rest;
      } else if |rest| > 1 {
        var parts := [[s[0]] + rest[0]] + rest[1..];
        assert parts[1..] == rest[1..];
      }
    }
  }

  /** The first field is the prefix before the first separator. */
  lemma {:induction false} SplitFirstField(s: string, sep: char)
    ensures SplitAll(s, sep)[0] == PrefixBefore(s, sep)
  {
    if s != [] && s[0] != sep {
      SplitFirstField(s[1..], sep);
    }
  }

  /** Every field is empty exactly when the string is made of separators only. */
  lemma {:induction false} SplitAllEmpty(s: string, sep: char)
    ensures (forall k :: 0 <= k < |SplitAll(s, sep)| ==> SplitAll(s, sep)[k] == []) <==> AllChars(s, sep)
  {
    if s != [] {
      var rest := SplitAll(s[1..], sep);
      var parts := SplitAll(s, sep);
      SplitAllEmpty(s[1..], sep);
      if s[0] == sep {
        assert parts == [[]] + rest;
        assert (forall k :: 0 <= k < |parts| ==> parts[k] == []) <==> (forall k :: 0 <= k < |rest| ==> rest[k] == []) by {
          assert forall k :: 0 <= k < |rest| ==> rest[k] == parts[k + 1];
        }
        assert AllChars(s, sep) <==> AllChars(s[1..], sep) by {
          assert forall i :: 1 <= i < |s| ==> s[i] == s[1..][i - 1];
        }
      } else {
        assert parts[0] != [];
      }
    }
  }

  /** String.split(":")[0] is the prefix before the first colon, except that a non-empty
      string made of separators only yields an empty array. */
  lemma SplitFirst(s: string, sep: char)
    ensures |Split(s, sep)| == 0 <==> |s| > 0 && AllChars(s, sep)
    ensures |Split(s, sep)| > 0 ==> Split(s, sep)[0] == PrefixBefore(s, sep)
  {
    if sep !in s {
      assert |s| > 0 ==> s[0] != sep;
    } else {
      var parts := SplitAll(s, sep);
      var kept := DropTrailingEmpty(parts);
      SplitAllEmpty(s, sep);
      SplitFirstField(s, sep);
      if kept != [] {
        assert kept[|kept| - 1] == parts[|kept| - 1];
      }
    }
  }

  /** equalsIgnoreCase holds exactly when the lower-cased forms are equal. */
  lemma EqualsIgnoreCaseIff(a: string, b: string)
    ensures EqualsIgnoreCase(a, b) <==> ToLower(a) == ToLower(b)
  {
    if ToLower(a) == ToLower(b) {
      assert forall i :: 0 <= i < |a| ==> LowerChar(a[i]) == ToLower(a)[i];
    }
  }

  lemma LowerConcat(a: string, b: string)
    requires IsLower(a) && IsLower(b)
    ensures IsLower(a + b)
  {
    forall i | 0 <= i < |a + b|
      ensures LowerChar((a + b)[i]) == (a + b)[i]
    {
      if i >= |a| {
        assert (a + b)[i] == b[i - |a|];
      }
    }
  }

  /** One step of String.replace: the text before the first target, the replacement, and
      the rest with its own targets replaced. */
  lemma ReplaceAllStep(s: string, target: string, replacement: string)
    requires |target| > 0 && Contains(s, target)
    ensures var i := IndexOf(s, target);
      ReplaceAll(s, target, replacement) == s[..i] + replacement + ReplaceAll(s[i + |target|..], target, replacement)
  {
  }

  /** Replacing in a lower-case string with a lower-case replacement keeps it lower case. */
  lemma {:induction false} ReplaceAllKeepsLower(s: string, target: string, replacement: string)
    requires |target| > 0
    requires IsLower(s) && IsLower(replacement)
    ensures IsLower(ReplaceAll(s, target, replacement))
  {
    if Contains(s, target) {
      var i := IndexOf(s, target);
      var before, after := s[..i], s[i + |target|..];
      var rest := ReplaceAll(after, target, replacement);
      ReplaceAllStep(s, target, replacement);
      assert ReplaceAll(s, target, replacement) == before + replacement + rest;
      assert IsLower(before) && IsLower(after) by {
        LowerTakeDrop(s, i);
        LowerTakeDrop(s, i + |target|);
      }
      assert IsLower(rest) by {
        ReplaceAllKeepsLower(after, target, replacement);
      }
      LowerSplice(before, replacement, rest);
    }
  }

  lemma LowerSplice(a: string, b: string, c: string)
    requires IsLower(a) && IsLower(b) && IsLower(c)
    ensures IsLower(a + b + c)
  {
    LowerConcat(a, b);
    LowerConcat(a + b, c);
  }

  /** Where the target occurs, the replacement occurs in the result, at the first target. */
  lemma ReplaceAllInserts(s: string, target: string, replacement: string)
    requires |target| > 0 && Contains(s, target)
    ensures OccursAt(ReplaceAll(s, target, replacement), replacement, IndexOf(s, target))
  {
    var i := IndexOf(s, target);
    var r := ReplaceAll(s, target, replacement);
    ReplaceAllStep(s, target, replacement);
    assert r[i..i + |replacement|] == replacement;
  }

  /** No proper suffix of `t` is also a prefix of it, so two occurrences of `t` can never
      overlap, and an occurrence cannot straddle the end of a text that lacks `t`. */
  predicate Unbordered(t: string) {
    forall k :: 0 < k < |t| ==> t[k..] != t[..|t| - k]
  }

  /** In `head + t + rest`, with `t` absent from `head` and unbordered, the first
      occurrence of `t` is the one right after `head`. */
  lemma IndexOfAfterHead(head: string, t: string, rest: string)
    requires |t| > 0 && Unbordered(t) && !Contains(head, t)
    ensures IndexOf(head + t + rest, t) == |head|
  {
    var s := head + t + rest;
    assert s[|head|..|head| + |t|] == t;
    assert OccursAt(s, t, |head|);
    forall i | 0 <= i < |head|
      ensures !OccursAt(s, t, i)
    {
      if i + |t| <= |head| {
        assert s[i..i + |t|] == head[i..i + |t|];
        assert !OccursAt(head, t, i);
      } else if i + |t| <= |s| {
        var k := |head| - i;
        assert t[k..] != t[..|t| - k];
        var j :| 0 <= j < |t| - k && t[k..][j] != t[..|t| - k][j];
        assert s[i..i + |t|][k + j] == s[|head| + j] == t[j];
        assert s[i..i + |t|][k + j] != t[k + j];
      }
    }
  }

  /** String.replace replaces EVERY occurrence: a text made of `t`-free fields joined by
      an unbordered `t` comes back with the same fields joined by the replacement. */
  lemma {:induction false} ReplaceAllJoin(parts: seq<string>, t: string, replacement: string)
    requires |t| > 0 && Unbordered(t)
    requires forall k :: 0 <= k < |parts| ==> !Contains(parts[k], t)
    ensures ReplaceAll(Join(parts, t), t, replacement) == Join(parts, replacement)
  {
    if parts == [] {
      assert !OccursAt([], t, IndexOf([], t));
    } else if |parts| > 1 {
      var head, rest := parts[0], Join(parts[1..], t);
      var s := Join(parts, t);
      assert s == head + t + rest;
      IndexOfAfterHead(head, t, rest);
      ReplaceAllStep(s, t, replacement);
      assert s[..|head|] == head && s[|head| + |t|..] == rest;
      ReplaceAllJoin(parts[1..], t, replacement);
    }
  }

  lemma LowerTakeDrop(s: string, n: nat)
    requires n <= |s| && IsLower(s)
    ensures IsLower(s[..n]) && IsLower(s[n..])
  {
    assert forall k :: 0 <= k < |s| - n ==> s[n..][k] == s[n + k];
  }

  lemma {:induction false} NatToStringRoundTrip(n: nat)
    ensures DigitsValue(NatToString(n)) == n
  {
    var front := if n < 10 then [] else NatToString(n / 10);
    var r := front + [Digit(n % 10)];
    assert r[..|r| - 1] == front;
    if n >= 10 {
      NatToStringRoundTrip(n / 10);
    }
  }

  /** Reading back the decimal form of an int gives the int. */
  lemma IntToStringRoundTrip(n: int)
    ensures ParseInt(IntToString(n)) == n
  {
    if n < 0 {
      var m: nat := -n;
      NatToStringRoundTrip(m);
      ParseNegative(IntToString(n), NatToString(m), m);
    } else {
      NatToStringRoundTrip(n);
    }
  }

  lemma ParseNegative(r: string, digits: string, m: nat)
    requires IsDigits(digits) && r == "-" + digits && DigitsValue(digits) == m
    ensures ParseInt(r) == -(m as int)
  {
    assert r[1..] == digits;
  }
}
