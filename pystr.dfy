/** The Option type used wherever the source returns None. */
module Wrappers {
  datatype Option<+T> = None | Some(value: T)
}

/**
 * The few Python string built-ins the scrapers and the update scripts rely on:
 * str.strip(), str.replace(), str.join(), str() of an int and int() of a str.
 * Split is not one of them: it is the inverse of join() that reads joined
 * text back.
 */
module PyStr {
  import opened Wrappers

  /** Python's str.isspace() for one character (the characters str.strip() removes). */
  predicate IsSpace(c: char) {
    || ('\t' <= c <= '\r')
    || ('\U{1C}' <= c <= '\U{1F}')
    || c == ' ' || c == '\U{85}' || c == '\U{A0}' || c == '\U{1680}'
    || ('\U{2000}' <= c <= '\U{200A}')
    || c == '\U{2028}' || c == '\U{2029}' || c == '\U{202F}' || c == '\U{205F}'
    || c == '\U{3000}'
  }

  /** s.lstrip(): the longest suffix of s that does not start with whitespace. */
  function LStrip(s: string): (r: string)
    ensures |r| <= |s| && r == s[|s| - |r|..]
    ensures r == [] || !IsSpace(r[0])
    decreases |s|
  {
    if s != [] && IsSpace(s[0]) then LStrip(s[1..]) else s
  }

  /** lstrip() removes whitespace only. */
  lemma {:induction false} LStripRemovesSpaces(s: string)
    ensures forall i :: 0 <= i < |s| - |LStrip(s)| ==> IsSpace(s[i])
    decreases |s|
  {
    if s != [] && IsSpace(s[0]) {
      LStripRemovesSpaces(s[1..]);
      assert forall i :: 1 <= i < |s| ==> s[i] == s[1..][i - 1];
    }
  }

  /** s.rstrip(): the longest prefix of s that does not end with whitespace. */
  function RStrip(s: string): (r: string)
    ensures |r| <= |s| && r == s[..|r|]
    ensures r == [] || !IsSpace(r[|r| - 1])
    decreases |s|
  {
    if s != [] && IsSpace(s[|s| - 1]) then RStrip(s[..|s| - 1]) else s
  }

  /** rstrip() removes whitespace only. */
  lemma {:induction false} RStripRemovesSpaces(s: string)
    ensures forall i :: |RStrip(s)| <= i < |s| ==> IsSpace(s[i])
    decreases |s|
  {
    if s != [] && IsSpace(s[|s| - 1]) {
      RStripRemovesSpaces(s[..|s| - 1]);
    }
  }

  /** s.strip() */
  function Strip(s: string): string {
    RStrip(LStrip(s))
  }

  /** A string that begins and ends with a non-blank character is its own strip(). */
  lemma StripUnpadded(s: string)
    requires s == [] || (!IsSpace(s[0]) && !IsSpace(s[|s| - 1]))
    ensures Strip(s) == s
  {
  }

  /** strip() leaves nothing to strip. */
  lemma StripIdempotent(s: string)
    ensures Strip(Strip(s)) == Strip(s)
  {
    var l := LStrip(s);
    var r := RStrip(l);
    if r != [] {
      assert r[0] == l[0];
      StripUnpadded(r);
    }
  }

  predicate StartsWith(s: string, prefix: string) {
    |prefix| <= |s| && s[..|prefix|] == prefix
  }

  predicate EndsWith(s: string, suffix: string) {
    |suffix| <= |s| && s[|s| - |suffix|..] == suffix
  }

  /**
   * s.replace(pat, rep) for a non-empty pat: every occurrence of pat, found
   * left to right without overlap, is replaced by rep.
   */
  function ReplaceAll(s: string, pat: string, rep: string): string
    requires pat != []
    decreases |s|
  {
    if |s| < |pat| then s
    else if s[..|pat|] == pat then rep + ReplaceAll(s[|pat|..], pat, rep)
    else [s[0]] + ReplaceAll(s[1..], pat, rep)
  }

  /** A string in which the pattern's first character never occurs is left as it is. */
  lemma {:induction false} ReplaceAllAbsent(s: string, pat: string, rep: string)
    requires pat != [] && pat[0] !in s
    ensures ReplaceAll(s, pat, rep) == s
    decreases |s|
  {
    if |s| >= |pat| {
      assert s[..|pat|][0] == s[0];
      ReplaceAllAbsent(s[1..], pat, rep);
      assert [s[0]] + s[1..] == s;
    }
  }

  /** pat occurs in s starting at index i. */
  predicate OccursAt(s: string, pat: string, i: int) {
    0 <= i && i + |pat| <= |s| && s[i..i + |pat|] == pat
  }

  /** No occurrence of pat starts anywhere in s. */
  predicate Free(s: string, pat: string) {
    forall i :: 0 <= i <= |s| ==> !OccursAt(s, pat, i)
  }

  /** A string without an occurrence of the pattern is left as it is. */
  lemma {:induction false} ReplaceAllFree(s: string, pat: string, rep: string)
    requires pat != [] && Free(s, pat)
    ensures ReplaceAll(s, pat, rep) == s
    decreases |s|
  {
    if |s| >= |pat| {
      assert !OccursAt(s, pat, 0);
      forall i | 0 <= i <= |s[1..]|
        ensures !OccursAt(s[1..], pat, i)
      {
        if OccursAt(s[1..], pat, i) {
          assert s[1..][i..i + |pat|] == s[i + 1..i + 1 + |pat|];
          assert OccursAt(s, pat, i + 1);
        }
      }
      ReplaceAllFree(s[1..], pat, rep);
      assert [s[0]] + s[1..] == s;
    }
  }

  /** An occurrence at the very front is replaced, and the scan resumes after it. */
  lemma ReplaceAllLeading(pat: string, rest: string, rep: string)
    requires pat != []
    ensures ReplaceAll(pat + rest, pat, rep) == rep + ReplaceAll(rest, pat, rep)
  {
    assert (pat + rest)[..|pat|] == pat;
    assert (pat + rest)[|pat|..] == rest;
  }

  /** The pattern at the very end, preceded by text free of its first character, is the only replacement. */
  lemma {:induction false} ReplaceAllTrailing(a: string, pat: string, rep: string)
    requires pat != [] && pat[0] !in a
    ensures ReplaceAll(a + pat, pat, rep) == a + rep
    decreases |a|
  {
    if a == [] {
      assert a + pat == pat + [];
      ReplaceAllLeading(pat, [], rep);
    } else {
      var s := a + pat;
      assert s[..|pat|][0] == a[0];
      assert s[1..] == a[1..] + pat;
      ReplaceAllTrailing(a[1..], pat, rep);
      assert [a[0]] + (a[1..] + rep) == a + rep;
    }
  }

  /** sep.join(parts) written as: the first part, then each further part preceded by sep. */
  function Join(sep: string, parts: seq<string>): string {
    if parts == [] then [] else parts[0] + Prefixed(sep, parts[1..])
  }

  /** The concatenation of sep + p for every p in parts, in order. */
  function Prefixed(sep: string, parts: seq<string>): string {
    if parts == [] then [] else sep + parts[0] + Prefixed(sep, parts[1..])
  }

  /** Prefixing distributes over concatenation of the list of parts. */
  lemma {:induction false} PrefixedAppend(sep: string, a: seq<string>, b: seq<string>)
    ensures Prefixed(sep, a + b) == Prefixed(sep, a) + Prefixed(sep, b)
    decreases |a|
  {
    if a != [] {
      assert (a + b)[1..] == a[1..] + b;
      PrefixedAppend(sep, a[1..], b);
    } else {
      assert a + b == b;
    }
  }

  /** s.split(c) for a one-character separator c. */
  function Split(s: string, c: char): (r: seq<string>)
    ensures |r| >= 1
    decreases |s|
  {
    if s == [] then [[]]
    else
      var rest := Split(s[1..], c);
      if s[0] == c then [[]] + rest else [[s[0]] + rest[0]] + rest[1..]
  }

  /** Text without the separator splits into itself. */
  lemma {:induction false} SplitNoSeparator(a: string, c: char)
    requires c !in a
    ensures Split(a, c) == [a]
    decreases |a|
  {
    if a != [] {
      SplitNoSeparator(a[1..], c);
      assert [a[0]] + a[1..] == a;
    }
  }

  /** The first separator ends the first piece. */
  lemma {:induction false} SplitAtFirst(a: string, c: char, b: string)
    requires c !in a
    ensures Split(a + [c] + b, c) == [a] + Split(b, c)
    decreases |a|
  {
    var s := a + [c] + b;
    if a == [] {
      assert s[1..] == b;
    } else {
      assert s[1..] == a[1..] + [c] + b;
      SplitAtFirst(a[1..], c, b);
      assert [a[0]] + a[1..] == a;
    }
  }

  /** Splitting undoes joining when no part contains the separator. */
  lemma {:induction false} SplitJoin(parts: seq<string>, c: char)
    requires |parts| >= 1
    requires forall i :: 0 <= i < |parts| ==> c !in parts[i]
    ensures Split(Join([c], parts), c) == parts
    decreases |parts|
  {
    if |parts| == 1 {
      assert Join([c], parts) == parts[0];
      SplitNoSeparator(parts[0], c);
    } else {
      var tail := parts[1..];
      assert Prefixed([c], tail) == [c] + tail[0] + Prefixed([c], tail[1..]);
      assert Join([c], parts) == parts[0] + [c] + Join([c], tail);
      SplitAtFirst(parts[0], c, Join([c], tail));
      SplitJoin(tail, c);
      assert [parts[0]] + tail == parts;
    }
  }

  /** The lines, each followed by the line terminator c. */
  function Terminated(lines: seq<string>, c: char): string {
    if lines == [] then [] else lines[0] + [c] + Terminated(lines[1..], c)
  }

  /** Lines ended by the separator are what split() returns first, in order. */
  lemma {:induction false} SplitTerminated(lines: seq<string>, c: char, rest: string)
    requires forall l :: l in lines ==> c !in l
    ensures Split(Terminated(lines, c) + rest, c) == lines + Split(rest, c)
    decreases |lines|
  {
    if lines != [] {
      var head := lines[0];
      var tail := Terminated(lines[1..], c);
      assert head in lines;
      assert forall l :: l in lines[1..] ==> l in lines;
      calc {
        Split(Terminated(lines, c) + rest, c);
        { assert Terminated(lines, c) + rest == head + [c] + (tail + rest); }
        Split(head + [c] + (tail + rest), c);
        { SplitAtFirst(head, c, tail + rest); }
        [head] + Split(tail + rest, c);
        { SplitTerminated(lines[1..], c, rest); }
        [head] + (lines[1..] + Split(rest, c));
        { assert lines == [head] + lines[1..]; }
        lines + Split(rest, c);
      }
    } else {
      assert Terminated(lines, c) + rest == rest;
    }
  }

  predicate IsDigit(c: char) {
    '0' <= c <= '9'
  }

  function DigitChar(d: nat): (c: char)
    requires d < 10
    ensures IsDigit(c) && DigitValue(c) == d
  {
    (48 + d) as char
  }

  function DigitValue(c: char): nat
    requires IsDigit(c)
  {
    c as int - 48
  }

  /** str(n) for a natural number: decimal digits without leading zeros. */
  function NatToString(n: nat): (r: string)
    ensures |r| >= 1
    ensures forall i :: 0 <= i < |r| ==> IsDigit(r[i])
    ensures r[0] == '0' ==> n == 0
  {
    if n < 10 then [DigitChar(n)] else NatToString(n / 10) + [DigitChar(n % 10)]
  }

  /** str(i) for a Python int. */
  function IntToString(i: int): string {
    if i < 0 then "-" + NatToString(-i) else NatToString(i)
  }

  /** Characters of str(i): digits and a minus sign. */
  lemma IntToStringChars(i: int)
    ensures forall k :: 0 <= k < |IntToString(i)| ==> IsDigit(IntToString(i)[k]) || IntToString(i)[k] == '-'
  {
    if i < 0 {
      var d := NatToString(-i);
      assert forall k :: 1 <= k < |IntToString(i)| ==> IntToString(i)[k] == d[k - 1];
    }
  }

  /** The digit string int() accepts in base 10: digits, with single underscores between digits. */
  predicate IsDigitString(s: string) {
    && |s| > 0
    && IsDigit(s[0])
    && IsDigit(s[|s| - 1])
    && (forall i :: 0 <= i < |s| ==> IsDigit(s[i]) || s[i] == '_')
    && (forall i :: 0 <= i < |s| - 1 ==> !(s[i] == '_' && s[i + 1] == '_'))
  }

  /** The value of the digits of s, underscores ignored. */
  function DecimalValue(s: string): nat
    requires forall i :: 0 <= i < |s| ==> IsDigit(s[i]) || s[i] == '_'
  {
    if s == [] then 0
    else if s[|s| - 1] == '_' then DecimalValue(s[..|s| - 1])
    else DecimalValue(s[..|s| - 1]) * 10 + DigitValue(s[|s| - 1])
  }

  /**
   * The whitespace int() skips around a number. Characters from U+0080 up that
   * str.isspace() accepts count as spaces, but below that only tab, line feed,
   * vertical tab, form feed, carriage return and space do; the separators
   * U+001C to U+001F, which str.strip() removes, make int() fail.
   */
  predicate IsIntSpace(c: char) {
    IsSpace(c) && !('\U{1C}' <= c <= '\U{1F}')
  }

  /** The longest suffix of s that does not start with whitespace int() skips. */
  function IntLTrim(s: string): (r: string)
    ensures |r| <= |s| && r == s[|s| - |r|..]
    ensures r == [] || !IsIntSpace(r[0])
    decreases |s|
  {
    if s != [] && IsIntSpace(s[0]) then IntLTrim(s[1..]) else s
  }

  /** The longest prefix of s that does not end with whitespace int() skips. */
  function IntRTrim(s: string): (r: string)
    ensures |r| <= |s| && r == s[..|r|]
    ensures r == [] || !IsIntSpace(r[|r| - 1])
    decreases |s|
  {
    if s != [] && IsIntSpace(s[|s| - 1]) then IntRTrim(s[..|s| - 1]) else s
  }

  /** s without the whitespace int() skips at either end. */
  function IntTrim(s: string): string {
    IntRTrim(IntLTrim(s))
  }

  /**
   * int(s) in base 10: surrounding whitespace is ignored, an optional sign is
   * accepted, and anything else that is not a digit string is a ValueError (None).
   */
  function ParseInt(s: string): Option<int> {
    ParseSigned(IntTrim(s))
  }

  /** An optionally signed digit string, once the whitespace is gone. */
  function ParseSigned(t: string): Option<int> {
    if |t| > 0 && (t[0] == '+' || t[0] == '-') then
      if IsDigitString(t[1..]) then
        var v: int := DecimalValue(t[1..]);
        Some(if t[0] == '-' then -v else v)
      else None
    else if IsDigitString(t) then Some(DecimalValue(t))
    else None
  }

  lemma {:induction false} DecimalValueOfNat(n: nat)
    ensures DecimalValue(NatToString(n)) == n
  {
    var s := NatToString(n);
    if n < 10 {
      assert s[..|s| - 1] == [];
    } else {
      assert s[..|s| - 1] == NatToString(n / 10);
      DecimalValueOfNat(n / 10);
    }
  }

  /** str(n) is a digit string int() accepts. */
  lemma NatToStringIsDigitString(n: nat)
    ensures IsDigitString(NatToString(n))
  {
    var d := NatToString(n);
    assert IsDigit(d[0]) && IsDigit(d[|d| - 1]);
  }

  /** str(i) has no surrounding whitespace. */
  lemma IntToStringUnpadded(i: int)
    ensures IntTrim(IntToString(i)) == IntToString(i)
  {
    var s := IntToString(i);
    IntToStringChars(i);
    assert s != [] by {
      assert |NatToString(if i < 0 then -i else i)| >= 1;
    }
    assert !IsIntSpace(s[0]) && !IsIntSpace(s[|s| - 1]);
    IntTrimUnpadded(s);
  }

  /** Text that neither starts nor ends with whitespace int() skips is left alone. */
  lemma IntTrimUnpadded(s: string)
    requires s != [] && !IsIntSpace(s[0]) && !IsIntSpace(s[|s| - 1])
    ensures IntTrim(s) == s
  {
    assert IntLTrim(s) == s;
  }

  /** int(str(i)) == i for every int i. */
  lemma ParseIntOfIntToString(i: int)
    ensures ParseInt(IntToString(i)) == Some(i)
  {
    IntToStringUnpadded(i);
    ParseSignedOfIntToString(i);
  }

  lemma ParseSignedOfIntToString(i: int)
    ensures ParseSigned(IntToString(i)) == Some(i)
  {
    var s := IntToString(i);
    if i < 0 {
      var d := NatToString(-i);
      assert s[0] == '-' && s[1..] == d;
      DecimalValueOfNat(-i);
      NatToStringIsDigitString(-i);
    } else {
      DecimalValueOfNat(i);
      NatToStringIsDigitString(i);
      assert IsDigit(s[0]);
    }
  }

  /** Whatever int() accepts contains a digit, so a string without digits is never a number. */
  lemma ParseIntNeedsDigit(s: string)
    requires forall i :: 0 <= i < |s| ==> !IsDigit(s[i])
    ensures ParseInt(s) == None
  {
    var l := IntLTrim(s);
    var t := IntTrim(s);
    if t != [] {
      assert t[0] == l[0] == s[|s| - |l|];
      assert t[|t| - 1] == l[|t| - 1] == s[|s| - |l| + |t| - 1];
    }
  }

  /**
   * Unlike strip(), int() does not skip the separators U+001C to U+001F: text
   * that starts with one of them is never a number.
   */
  lemma ParseIntRejectsSeparators(s: string)
    requires s != [] && '\U{1C}' <= s[0] <= '\U{1F}'
    ensures ParseInt(s) == None
    ensures IsSpace(s[0])
  {
    assert IntLTrim(s) == s;
    IntRTrimKeepsFront(s);
  }

  /** Trimming at the end keeps a first character that is not whitespace. */
  lemma {:induction false} IntRTrimKeepsFront(s: string)
    requires s != [] && !IsIntSpace(s[0])
    ensures IntRTrim(s) != [] && IntRTrim(s)[0] == s[0]
    decreases |s|
  {
    if IsIntSpace(s[|s| - 1]) {
      IntRTrimKeepsFront(s[..|s| - 1]);
    }
  }
}
