/** The texts of a UUID: the one that str() writes, and all that uuid.UUID reads. */
module UuidText {
  import opened Common
  import opened Text

  // ---------- hexadecimal numbers ----------

  function HexDigit(d: nat): (c: char)
    requires d < 16
    ensures IsHexDigit(c) && HexDigitValue(c) == d
  {
    if d < 10 then '0' + d as char else 'a' + (d - 10) as char
  }

  predicate IsHexDigit(c: char) {
    '0' <= c <= '9' || 'a' <= c <= 'f' || 'A' <= c <= 'F'
  }

  function HexDigitValue(c: char): nat
    requires IsHexDigit(c)
  {
    if c <= '9' then (c - '0') as nat
    else if c <= 'F' then (c - 'A') as nat + 10
    else (c - 'a') as nat + 10
  }

  predicate AllHex(s: string) {
    forall c | c in s :: IsHexDigit(c)
  }

  /** int(s, 16) for a text of hexadecimal digits. */
  function HexValue(s: string): nat
    requires AllHex(s)
  {
    if s == "" then 0 else 16 * HexValue(s[..|s| - 1]) + HexDigitValue(s[|s| - 1])
  }

  function Pow16(k: nat): nat {
    if k == 0 then 1 else 16 * Pow16(k - 1)
  }

  lemma {:induction false} Pow16Positive(k: nat)
    ensures Pow16(k) > 0
  {
    if k > 0 { Pow16Positive(k - 1); }
  }

  /** The last `width` hexadecimal digits of n. */
  function Hex(n: nat, width: nat): (s: string)
    ensures AllHex(s) && |s| == width
    ensures n < Pow16(width) ==> HexValue(s) == n
  {
    if width == 0 then ""
    else
      var s := Hex(n / 16, width - 1) + [HexDigit(n % 16)];
      assert s[..|s| - 1] == Hex(n / 16, width - 1);
      s
  }

  // ---------- writing and reading an id ----------

  const DIGITS: nat := 32

  function Hyphenated(h: string): string
    requires |h| == DIGITS
  {
    h[..8] + "-" + h[8..12] + "-" + h[12..16] + "-" + h[16..20] + "-" + h[20..]
  }

  /** str(id): lower case, hyphens after 8, 12, 16 and 20 digits. */
  function Canonical(id: Uuid): string {
    Hyphenated(Hex(id, DIGITS))
  }

  /** 36 characters: hyphens in four places, lower-case hexadecimal digits elsewhere. */
  lemma CanonicalShape(id: Uuid)
    ensures var s := Canonical(id);
            && |s| == 36
            && forall i | 0 <= i < 36 ::
                 if i == 8 || i == 13 || i == 18 || i == 23 then s[i] == '-' else '0' <= s[i] <= '9' || 'a' <= s[i] <= 'f'
  {
    LowerCase(id, DIGITS);
    var h := Hex(id, DIGITS);
    assert forall i | 0 <= i < |h| :: h[i] in h;
  }

  lemma {:induction false} LowerCase(n: nat, width: nat)
    ensures forall c | c in Hex(n, width) :: '0' <= c <= '9' || 'a' <= c <= 'f'
  {
    if width > 0 {
      LowerCase(n / 16, width - 1);
    }
  }

  predicate IsBrace(c: char) {
    c == '{' || c == '}'
  }

  /** s.strip("{}") */
  function WithoutBraces(s: string): string {
    if s != "" && IsBrace(s[0]) then WithoutBraces(s[1..])
    else if s != "" && IsBrace(s[|s| - 1]) then WithoutBraces(s[..|s| - 1])
    else s
  }

  /** uuid.UUID(text): upper case, missing or misplaced hyphens, braces and a URN prefix are all accepted. */
  function ParseUuid(text: string): Option<Uuid> {
    var digits := Removed(WithoutBraces(Removed(Removed(text, "urn:"), "uuid:")), "-");
    if |digits| == DIGITS && AllHex(digits) then Some(HexValue(digits)) else None
  }

  lemma HyphensRemoved(h: string)
    requires |h| == DIGITS && AllHex(h)
    ensures Removed(Hyphenated(h), "-") == h
  {
    var a, b, c, d, e := h[..8], h[8..12], h[12..16], h[16..20], h[20..];
    OneHyphenRemoved(a, b);
    OneHyphenRemoved(a + "-" + b, c);
    OneHyphenRemoved(a + "-" + b + "-" + c, d);
    OneHyphenRemoved(a + "-" + b + "-" + c + "-" + d, e);
    assert AllHex(a);
    NothingToRemove(a, "-");
    assert h == a + b + c + d + e;
  }

  lemma OneHyphenRemoved(a: string, b: string)
    requires AllHex(b)
    ensures Removed(a + "-" + b, "-") == Removed(a, "-") + b
  {
    RemovedFromBoth(a + "-", b, '-');
    RemovedFromBoth(a, "-", '-');
    NothingToRemove(b, "-");
    assert "-"[1..] == "";
    assert Removed("-", "-") == Removed("", "-") == "";
  }

  /** Every text made of digits and hyphens alone is read by its digits. */
  lemma ReadByDigits(text: string)
    requires text != "" && forall c | c in text :: IsHexDigit(c) || c == '-'
    ensures ParseUuid(text) ==
            var digits := Removed(text, "-");
            if |digits| == DIGITS && AllHex(digits) then Some(HexValue(digits)) else None
  {
    NothingToRemove(text, "urn:");
    NothingToRemove(text, "uuid:");
    assert text[0] in text && text[|text| - 1] in text;
  }

  /** The id that str() wrote reads back, and its text has no colon. */
  lemma CanonicalReadsBack(id: Uuid)
    requires id < Pow16(DIGITS)
    ensures ParseUuid(Canonical(id)) == Some(id) && ':' !in Canonical(id)
  {
    var h := Hex(id, DIGITS);
    assert forall c | c in Canonical(id) :: IsHexDigit(c) || c == '-' by { HyphenatedChars(h); }
    ReadByDigits(Canonical(id));
    HyphensRemoved(h);
  }

  lemma HyphenatedChars(h: string)
    requires |h| == DIGITS && AllHex(h)
    ensures forall c | c in Hyphenated(h) :: IsHexDigit(c) || c == '-'
  {
  }

  /** Capital digits count as small ones. */
  lemma CapitalsCount(c: char)
    requires 'a' <= c <= 'f'
    ensures IsHexDigit(c) && IsHexDigit(c - 'a' + 'A') && HexDigitValue(c - 'a' + 'A') == HexDigitValue(c)
  {
  }

  lemma CanonicalIsPlain(id: Uuid)
    ensures var s := Canonical(id); s != "" && !IsBrace(s[0]) && !IsBrace(s[|s| - 1]) && 'u' !in s
  {
    CanonicalShape(id);
    HyphenatedChars(Hex(id, DIGITS));
  }

  /** The id can stand in braces, and after a URN prefix. */
  lemma PrefixAndBracesAreRead(s: string)
    requires s != "" && !IsBrace(s[0]) && !IsBrace(s[|s| - 1]) && 'u' !in s
    ensures ParseUuid("{" + s + "}") == ParseUuid(s) == ParseUuid("urn:" + ("uuid:" + s))
  {
    NothingToRemove(s, "urn:");
    NothingToRemove(s, "uuid:");
    BracesComeOff(s);
    PrefixComesOff(s);
  }

  lemma CanonicalInBraces(id: Uuid)
    requires id < Pow16(DIGITS)
    ensures ParseUuid("{" + Canonical(id) + "}") == Some(id) == ParseUuid("urn:" + ("uuid:" + Canonical(id)))
  {
    CanonicalReadsBack(id);
    CanonicalIsPlain(id);
    PrefixAndBracesAreRead(Canonical(id));
  }

  lemma BracesComeOff(s: string)
    requires s != "" && !IsBrace(s[0]) && !IsBrace(s[|s| - 1]) && 'u' !in s
    ensures Removed(Removed("{" + s + "}", "urn:"), "uuid:") == "{" + s + "}"
    ensures WithoutBraces("{" + s + "}") == s == WithoutBraces(s)
  {
    NoU(s);
    NothingToRemove("{" + s + "}", "urn:");
    NothingToRemove("{" + s + "}", "uuid:");
    OneBraceOff(s);
  }

  lemma NoU(s: string)
    requires 'u' !in s
    ensures 'u' !in "{" + s + "}"
  {
  }

  lemma OneBraceOff(s: string)
    requires s != "" && !IsBrace(s[0]) && !IsBrace(s[|s| - 1])
    ensures WithoutBraces("{" + s + "}") == s == WithoutBraces(s)
  {
    var t := s + "}";
    assert "{" + s + "}" == "{" + t && ("{" + t)[1..] == t;
    assert t[0] == s[0] && t[..|t| - 1] == s;
    assert WithoutBraces(t) == WithoutBraces(s);
  }

  lemma PrefixComesOff(s: string)
    requires 'u' !in s && s != ""
    ensures Removed(Removed("urn:" + ("uuid:" + s), "urn:"), "uuid:") == s
  {
    var t := "uuid:" + s;
    assert ("urn:" + t)[4..] == t && "urn:" <= "urn:" + t;
    assert t[5..] == s && "uuid:" <= t;
    UrnNotInUuid(s);
    NothingToRemove(s, "uuid:");
  }

  lemma UrnNotInUuid(s: string)
    requires 'u' !in s
    ensures Removed("uuid:" + s, "urn:") == "uuid:" + s
  {
    var t := "uuid:" + s;
    assert t[1] == 'u' && t[2] == 'i';
    NothingToRemove(t[2..], "urn:");
    assert t[1..][1..] == t[2..];
    assert Removed(t[1..], "urn:") == ['u'] + t[2..];
    assert t == ['u'] + t[1..] && t[1..] == ['u'] + t[2..];
  }

  /** But it is not the only text that does: the digits alone are read as the same id. */
  lemma EveryIdHasTwoSpellings(id: Uuid)
    requires id < Pow16(DIGITS)
    ensures ParseUuid(Hex(id, DIGITS)) == Some(id) && Hex(id, DIGITS) != Canonical(id)
  {
    var h := Hex(id, DIGITS);
    ReadByDigits(h);
    NothingToRemove(h, "-");
    assert |Canonical(id)| == DIGITS + 4;
  }
}
