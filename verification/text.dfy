/** The few string operations of Python that the modelled code relies on, over ASCII. */
module Text {
  /** Python's ASCII whitespace, as str.strip and int see it. */
  predicate IsSpace(c: char) {
    '\t' <= c <= '\r' || '\U{1C}' <= c <= '\U{1F}' || c == ' '
  }

  /** not s or not s.strip() */
  predicate IsBlank(s: string) {
    forall c | c in s :: IsSpace(c)
  }

  function Strip(s: string): string {
    if s != "" && IsSpace(s[0]) then Strip(s[1..])
    else if s != "" && IsSpace(s[|s| - 1]) then Strip(s[..|s| - 1])
    else s
  }

  lemma BlankConcat(a: string, b: string)
    ensures IsBlank(a + b) <==> IsBlank(a) && IsBlank(b)
  {
    assert forall c :: c in a + b <==> c in a || c in b;
  }

  lemma {:induction false} StripEnds(s: string)
    ensures Strip(s) == "" || (!IsSpace(Strip(s)[0]) && !IsSpace(Strip(s)[|Strip(s)| - 1]))
  {
    if s != "" && IsSpace(s[0]) {
      StripEnds(s[1..]);
    } else if s != "" && IsSpace(s[|s| - 1]) {
      StripEnds(s[..|s| - 1]);
    }
  }

  lemma FrontAndBack(x: string, before: string, mid: string, after: string, y: string)
    ensures x + (before + mid + after) == (x + before) + mid + after
    ensures (before + mid + after) + y == before + mid + (after + y)
  {
  }

  /** What strip takes off is space, at both ends; StripEnds says that it leaves none there. */
  lemma {:induction false} StripExactly(s: string) returns (before: string, after: string)
    ensures s == before + Strip(s) + after && IsBlank(before) && IsBlank(after)
  {
    before, after := "", "";
    if s != "" && IsSpace(s[0]) {
      var mid := Strip(s[1..]);
      before, after := StripExactly(s[1..]);
      BlankConcat([s[0]], before);
      FrontAndBack([s[0]], before, mid, after, "");
      assert s == [s[0]] + s[1..];
      before := [s[0]] + before;
    } else if s != "" && IsSpace(s[|s| - 1]) {
      var mid := Strip(s[..|s| - 1]);
      before, after := StripExactly(s[..|s| - 1]);
      BlankConcat(after, [s[|s| - 1]]);
      FrontAndBack("", before, mid, after, [s[|s| - 1]]);
      assert s == s[..|s| - 1] + [s[|s| - 1]];
      after := after + [s[|s| - 1]];
    }
  }

  /** A text is blank exactly if nothing is left of it. */
  lemma BlankExactly(s: string)
    ensures IsBlank(s) <==> Strip(s) == ""
  {
    var before, after := StripExactly(s);
    BlankConcat(before + Strip(s), after);
    BlankConcat(before, Strip(s));
    if Strip(s) != "" { assert Strip(s)[0] in Strip(s); }
  }

  /** s.split(c): the pieces between the occurrences of c, one more than there are occurrences. */
  function Split(s: string, c: char): (parts: seq<string>)
    ensures |parts| >= 1
    ensures forall i | 0 <= i < |parts| :: c !in parts[i]
  {
    if s == "" then [""]
    else
      var rest := Split(s[1..], c);
      if s[0] == c then [""] + rest else [[s[0]] + rest[0]] + rest[1..]
  }

  lemma {:induction false} SplitAtFirst(a: string, b: string, c: char)
    requires c !in a
    ensures Split(a + [c] + b, c) == [a] + Split(b, c)
  {
    var s := a + [c] + b;
    if a == "" {
      assert s[1..] == b;
    } else {
      assert s[1..] == a[1..] + [c] + b;
      SplitAtFirst(a[1..], b, c);
      assert a == [a[0]] + a[1..];
    }
  }

  lemma {:induction false} SplitOfWhole(a: string, c: char)
    requires c !in a
    ensures Split(a, c) == [a]
  {
    if a != "" {
      SplitOfWhole(a[1..], c);
      assert a == [a[0]] + a[1..];
    }
  }

  /** s.replace(part, "") */
  function Removed(s: string, part: string): string
    requires part != ""
  {
    if part <= s then Removed(s[|part|..], part)
    else if s == "" then ""
    else [s[0]] + Removed(s[1..], part)
  }

  lemma {:induction false} NothingToRemove(s: string, part: string)
    requires part != "" && part[0] !in s
    ensures Removed(s, part) == s
  {
    if s != "" {
      assert s == [s[0]] + s[1..];
      NothingToRemove(s[1..], part);
    }
  }

  /** One character is removed from the two parts of a text separately. */
  lemma {:induction false} RemovedFromBoth(a: string, b: string, c: char)
    ensures Removed(a + b, [c]) == Removed(a, [c]) + Removed(b, [c])
  {
    if a == "" {
      assert a + b == b;
    } else {
      assert (a + b)[1..] == a[1..] + b;
      assert [c] <= a + b <==> [c] <= a;
      RemovedFromBoth(a[1..], b, c);
    }
  }

  // ---------- decimal numbers ----------

  function Digit(d: nat): char
    requires d < 10
  {
    '0' + d as char
  }

  predicate IsDigit(c: char) {
    '0' <= c <= '9'
  }

  function DigitValue(c: char): nat
    requires IsDigit(c)
  {
    (c - '0') as nat
  }

  predicate AllDigits(s: string) {
    forall c | c in s :: IsDigit(c)
  }

  /** The number that a string of decimal digits spells. */
  function ValueOf(s: string): nat
    requires AllDigits(s)
  {
    if s == "" then 0 else 10 * ValueOf(s[..|s| - 1]) + DigitValue(s[|s| - 1])
  }

  /** str(n) */
  function Decimal(n: nat): (s: string)
    ensures AllDigits(s) && s != "" && ValueOf(s) == n
  {
    if n < 10 then
      assert [Digit(n)][..0] == "";
      [Digit(n)]
    else
      var s := Decimal(n / 10) + [Digit(n % 10)];
      assert s[..|s| - 1] == Decimal(n / 10);
      s
  }

  function Pow10(k: nat): nat {
    if k == 0 then 1 else 10 * Pow10(k - 1)
  }

  lemma TenthIsBelow(n: nat, p: nat)
    requires n < 10 * p
    ensures n / 10 < p
  {
  }

  /** n with leading zeros, exactly `width` digits wide. */
  function Padded(n: nat, width: nat): (s: string)
    requires n < Pow10(width)
    ensures AllDigits(s) && |s| == width && ValueOf(s) == n
  {
    if width == 0 then ""
    else
      TenthIsBelow(n, Pow10(width - 1));
      var s := Padded(n / 10, width - 1) + [Digit(n % 10)];
      assert s[..|s| - 1] == Padded(n / 10, width - 1);
      s
  }
}
