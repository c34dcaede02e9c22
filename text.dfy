/**
 * String helpers that the scripts get from Python's `str`: comma stripping
 * (`str.replace(',', '')`), whitespace splitting (`str.split()`), decimal
 * rendering of integers (`str(i)`, f-strings) and the `:02d` format.
 */
module Text {

  import opened Wrappers

  /**
   * The separators `str.split()` meets in the period text the scripts build from `str(int)`:
   * space, tab, newline, carriage return, vertical tab and form feed.
   */
  predicate IsSpace(c: char) {
    c == ' ' || c == '\t' || c == '\n' || c == '\r' || c == '\U{B}' || c == '\U{C}'
  }

  predicate NoSpace(s: string) {
    forall i :: 0 <= i < |s| ==> !IsSpace(s[i])
  }

  /** `s.replace(',', '')`: every comma removed, every other character kept in order. */
  function RemoveCommas(s: string): (r: string)
    ensures ',' !in r
    ensures |r| <= |s|
    ensures forall c :: c != ',' ==> multiset(r)[c] == multiset(s)[c]
    ensures ',' !in s ==> r == s
  {
    if s == [] then []
    else
      assert s == [s[0]] + s[1..];
      if s[0] == ',' then RemoveCommas(s[1..])
      else [s[0]] + RemoveCommas(s[1..])
  }

  /** Stripping commas from a concatenation strips each part and keeps the parts in order. */
  lemma {:induction false} RemoveCommasConcat(a: string, b: string)
    ensures RemoveCommas(a + b) == RemoveCommas(a) + RemoveCommas(b)
    decreases |a|
  {
    if a == [] {
      assert a + b == b;
    } else {
      assert (a + b)[0] == a[0] && (a + b)[1..] == a[1..] + b;
      RemoveCommasConcat(a[1..], b);
    }
  }

  /** One character: a comma is dropped, any other character is kept. */
  lemma RemoveCommasChar(c: char)
    ensures RemoveCommas([c]) == if c == ',' then [] else [c]
  {
    assert [c][1..] == [];
  }

  /** Removing commas twice is the same as removing them once. */
  lemma RemoveCommasIdempotent(s: string)
    ensures RemoveCommas(RemoveCommas(s)) == RemoveCommas(s)
  {
  }

  /** The longest prefix of `s` that holds no separator. */
  function TakeWord(s: string): (w: string)
    ensures |w| <= |s| && w == s[..|w|]
    ensures NoSpace(w)
    ensures |w| < |s| ==> IsSpace(s[|w|])
  {
    if s == [] || IsSpace(s[0]) then []
    else [s[0]] + TakeWord(s[1..])
  }

  /** Python's `s.split()` with no argument: the maximal runs of non-separators. */
  function Split(s: string): (r: seq<string>)
    ensures forall i :: 0 <= i < |r| ==> r[i] != [] && NoSpace(r[i])
    decreases |s|
  {
    if s == [] then []
    else if IsSpace(s[0]) then Split(s[1..])
    else
      var w := TakeWord(s);
      [w] + Split(s[|w|..])
  }

  lemma {:induction false} TakeWordOfWordThenSpace(a: string, rest: string)
    requires a != [] && NoSpace(a)
    requires rest != [] && IsSpace(rest[0])
    ensures TakeWord(a + rest) == a
  {
    if |a| > 1 {
      assert (a + rest)[1..] == a[1..] + rest;
      TakeWordOfWordThenSpace(a[1..], rest);
    } else {
      assert (a + rest)[1..] == rest;
    }
  }

  lemma {:induction false} TakeWordOfWord(a: string)
    requires NoSpace(a)
    ensures TakeWord(a) == a
  {
    if a != [] {
      TakeWordOfWord(a[1..]);
    }
  }

  lemma {:induction false} SplitOfWord(a: string)
    requires a != [] && NoSpace(a)
    ensures Split(a) == [a]
  {
    TakeWordOfWord(a);
    assert a[|a|..] == [];
  }

  /** Two words joined by one space split back into those two words. */
  lemma SplitTwoWords(a: string, b: string)
    requires a != [] && NoSpace(a)
    requires b != [] && NoSpace(b)
    ensures Split(a + " " + b) == [a, b]
  {
    var s := a + " " + b;
    TakeWordOfWordThenSpace(a, " " + b);
    assert s == a + (" " + b);
    assert s[|a|..] == " " + b;
    assert s[|a|..][1..] == b;
    SplitOfWord(b);
  }

  /** The decimal digit character of `d`. */
  function DigitChar(d: int): (c: char)
    requires 0 <= d < 10
    ensures '0' <= c <= '9'
  {
    "0123456789"[d]
  }

  /** The value of a decimal digit character, if it is one. */
  function DigitValue(c: char): (d: Option<int>)
    ensures d.Some? <==> '0' <= c <= '9'
    ensures d.Some? ==> 0 <= d.value < 10 && DigitChar(d.value) == c
  {
    if '0' <= c <= '9' then Some(c as int - '0' as int) else None
  }

  /** `str(n)` for a natural number: its decimal digits, most significant first. */
  function NatToString(n: nat): (s: string)
    ensures |s| >= 1
    ensures forall i :: 0 <= i < |s| ==> '0' <= s[i] <= '9'
    ensures n < 10 <==> |s| == 1
    decreases n
  {
    if n < 10 then [DigitChar(n)] else NatToString(n / 10) + [DigitChar(n % 10)]
  }

  /** The number a string of decimal digits denotes. */
  function DecimalValue(s: string): (n: nat)
    requires forall i :: 0 <= i < |s| ==> '0' <= s[i] <= '9'
  {
    if s == [] then 0 else 10 * DecimalValue(s[..|s| - 1]) + (s[|s| - 1] as int - '0' as int)
  }

  /** Rendering a natural number in decimal and reading it back gives the number. */
  lemma {:induction false} NatToStringRoundTrip(n: nat)
    ensures DecimalValue(NatToString(n)) == n
    decreases n
  {
    if n >= 10 {
      var s := NatToString(n);
      var init := NatToString(n / 10);
      assert s == init + [DigitChar(n % 10)];
      assert s[..|s| - 1] == init;
      DigitCharValue(n % 10);
      NatToStringRoundTrip(n / 10);
      assert DecimalValue(s) == 10 * DecimalValue(init) + (DigitChar(n % 10) as int - '0' as int);
    }
  }

  lemma DigitCharValue(d: int)
    requires 0 <= d < 10
    ensures DigitChar(d) as int - '0' as int == d
  {
  }

  /** `str(i)` for any integer: a minus sign, then the digits of its magnitude. */
  function IntToString(i: int): (s: string)
    ensures |s| >= 1 && NoSpace(s)
    ensures s[0] == '-' <==> i < 0
    ensures i >= 0 ==> s == NatToString(i)
    ensures i < 0 ==> s == "-" + NatToString(-i) && |s| >= 2
  {
    if i < 0 then "-" + NatToString(-i) else NatToString(i)
  }

  /** Decimal rendering is injective: distinct integers render differently. */
  lemma NatToStringInjective(a: nat, b: nat)
    requires NatToString(a) == NatToString(b)
    ensures a == b
  {
    NatToStringRoundTrip(a);
    NatToStringRoundTrip(b);
  }

  lemma IntToStringInjective(i: int, j: int)
    requires IntToString(i) == IntToString(j)
    ensures i == j
  {
    if i < 0 && j < 0 {
      DropSign(NatToString(-i), NatToString(-j));
      NatToStringInjective(-i, -j);
    } else if i >= 0 && j >= 0 {
      NatToStringInjective(i, j);
    }
  }

  lemma DropSign(a: string, b: string)
    requires "-" + a == "-" + b
    ensures a == b
  {
    assert a == ("-" + a)[1..];
    assert b == ("-" + b)[1..];
  }

  /** Python's `f"{i:02d}"`: zero-padded to width two, the sign counting toward the width. */
  function ZeroPad2(i: int): (s: string)
    ensures |s| >= 2
    ensures 0 <= i < 10 ==> s == ['0', DigitChar(i)]
    ensures 10 <= i < 100 ==> s == [DigitChar(i / 10), DigitChar(i % 10)]
    ensures i < 0 || i >= 10 ==> s == IntToString(i)
  {
    if 0 <= i < 10 then "0" + IntToString(i)
    else
      assert 10 <= i < 100 ==> NatToString(i) == NatToString(i / 10) + [DigitChar(i % 10)];
      IntToString(i)
  }

  /** Python's `a < b` on strings: code points compared left to right, a proper prefix first. */
  predicate StringLess(a: string, b: string)
    decreases |a|
  {
    if a == [] then b != []
    else if b == [] then false
    else if a[0] != b[0] then a[0] < b[0]
    else StringLess(a[1..], b[1..])
  }

  lemma {:induction false} StringLessIrreflexive(a: string)
    ensures !StringLess(a, a)
    decreases |a|
  {
    if a != [] {
      StringLessIrreflexive(a[1..]);
    }
  }

  /** Of two different strings one is less than the other. */
  lemma {:induction false} StringLessTotal(a: string, b: string)
    ensures a == b || StringLess(a, b) || StringLess(b, a)
    decreases |a|
  {
    if a != [] && b != [] && a[0] == b[0] {
      StringLessTotal(a[1..], b[1..]);
      assert a == [a[0]] + a[1..] && b == [b[0]] + b[1..];
    }
  }

  lemma {:induction false} StringLessTransitive(a: string, b: string, c: string)
    requires StringLess(a, b) && StringLess(b, c)
    ensures StringLess(a, c)
    decreases |a|
  {
    if a != [] && b != [] && c != [] && a[0] == b[0] && b[0] == c[0] {
      StringLessTransitive(a[1..], b[1..], c[1..]);
    }
  }
}
