/**
 The text of a cursor: base64url (section 5 of RFC 4648) over the UTF-8 of "<ISO timestamp>:<id>".
 The decoders accept what the encoders can produce and answer None for the rest.
 */
module CursorCodec {
  import opened Common
  import opened Text

  // ---------- base64url ----------

  type sextet = n: nat | n < 64

  function SextetChar(n: sextet): char {
    if n < 26 then 'A' + n as char
    else if n < 52 then 'a' + (n - 26) as char
    else if n < 62 then '0' + (n - 52) as char
    else if n == 62 then '-'
    else '_'
  }

  function CharSextet(c: char): Option<sextet> {
    if 'A' <= c <= 'Z' then Some((c - 'A') as nat)
    else if 'a' <= c <= 'z' then Some((c - 'a') as nat + 26)
    else if '0' <= c <= '9' then Some((c - '0') as nat + 52)
    else if c == '-' then Some(62)
    else if c == '_' then Some(63)
    else None
  }

  function ToChars(q: seq<sextet>): (s: string)
    ensures |s| == |q|
  {
    if q == [] then "" else [SextetChar(q[0])] + ToChars(q[1..])
  }

  function FromChars(s: string): Option<seq<sextet>> {
    if s == "" then Some([])
    else
      var first, rest := CharSextet(s[0]), FromChars(s[1..]);
      if first.None? || rest.None? then None else Some([first.value] + rest.value)
  }

  /** Three bytes make four sextets; of one or two left over the last sextet is filled up with zeros. */
  function Sextets(b: seq<byte>): (q: seq<sextet>)
    ensures b != [] ==> q != []
  {
    if b == [] then []
    else if |b| == 1 then [b[0] / 4, b[0] % 4 * 16]
    else if |b| == 2 then [b[0] / 4, b[0] % 4 * 16 + b[1] / 16, b[1] % 16 * 4]
    else [b[0] / 4, b[0] % 4 * 16 + b[1] / 16, b[1] % 16 * 4 + b[2] / 64, b[2] % 64] + Sextets(b[3..])
  }

  function Bytes(q: seq<sextet>): Option<seq<byte>> {
    if q == [] then Some([])
    else if |q| == 1 then None
    else if |q| == 2 then Some([Joined(q[0], 4, q[1] / 16)])
    else if |q| == 3 then Some([Joined(q[0], 4, q[1] / 16), Joined(q[1] % 16, 16, q[2] / 4)])
    else
      var rest := Bytes(q[4..]);
      if rest.None? then None
      else Some([Joined(q[0], 4, q[1] / 16), Joined(q[1] % 16, 16, q[2] / 4), Joined(q[2] % 4, 64, q[3])] + rest.value)
  }

  /** The byte of some high bits and some low ones. */
  function Joined(high: nat, base: nat, low: nat): byte
    requires (base == 4 || base == 16 || base == 64) && high < 256 / base && low < base
  {
    high * base + low
  }

  function Padding(bytes: nat): string {
    if bytes % 3 == 1 then "==" else if bytes % 3 == 2 then "=" else ""
  }

  function Encode64(b: seq<byte>): string {
    ToChars(Sextets(b)) + Padding(|b|)
  }

  /** How many of the last characters are padding, two at most. */
  function PaddingOf(s: string): (p: nat)
    ensures p <= |s|
  {
    if s == "" || s[|s| - 1] != '=' then 0
    else if |s| == 1 || s[|s| - 2] != '=' then 1
    else 2
  }

  function Decode64(s: string): Option<seq<byte>> {
    if |s| % 4 != 0 then None
    else
      var q := FromChars(s[..|s| - PaddingOf(s)]);
      if q.None? then None else Bytes(q.value)
  }

  lemma SextetRoundTrip(n: sextet)
    ensures CharSextet(SextetChar(n)) == Some(n) && SextetChar(n) != '='
  {
  }

  lemma {:induction false} CharsRoundTrip(q: seq<sextet>)
    ensures FromChars(ToChars(q)) == Some(q) && '=' !in ToChars(q)
  {
    if q != [] {
      SextetRoundTrip(q[0]);
      CharsRoundTrip(q[1..]);
      assert ToChars(q)[1..] == ToChars(q[1..]);
      assert q == [q[0]] + q[1..];
    }
  }

  lemma SextetsRegroup(a: byte, b: byte, c: byte)
    ensures Joined(a / 4, 4, (a % 4 * 16 + b / 16) / 16) == a
    ensures Joined((a % 4 * 16 + b / 16) % 16, 16, (b % 16 * 4 + c / 64) / 4) == b
    ensures Joined((b % 16 * 4 + c / 64) % 4, 64, c % 64) == c
  {
  }

  lemma FourMoreSextets(p: sextet, q: sextet, r: sextet, t: sextet, more: seq<sextet>, rest: seq<byte>)
    requires Bytes(more) == Some(rest)
    ensures Bytes([p, q, r, t] + more) == Some([Joined(p, 4, q / 16), Joined(q % 16, 16, r / 4), Joined(r % 4, 64, t)] + rest)
  {
    assert ([p, q, r, t] + more)[4..] == more;
  }

  lemma GroupReadsBack(a: byte, b: byte, c: byte, more: seq<sextet>, rest: seq<byte>)
    requires Bytes(more) == Some(rest)
    ensures Bytes([a / 4, a % 4 * 16 + b / 16, b % 16 * 4 + c / 64, c % 64] + more) == Some([a, b, c] + rest)
  {
    FourMoreSextets(a / 4, a % 4 * 16 + b / 16, b % 16 * 4 + c / 64, c % 64, more, rest);
    SextetsRegroup(a, b, c);
  }

  lemma SextetsOfMore(a: byte, b: byte, c: byte, rest: seq<byte>)
    ensures Sextets([a, b, c] + rest) ==
            [a / 4, a % 4 * 16 + b / 16, b % 16 * 4 + c / 64, c % 64] + Sextets(rest)
  {
    assert ([a, b, c] + rest)[3..] == rest;
  }

  lemma ThreeMoreBytes(a: byte, b: byte, c: byte, rest: seq<byte>)
    requires Bytes(Sextets(rest)) == Some(rest)
    ensures Bytes(Sextets([a, b, c] + rest)) == Some([a, b, c] + rest)
  {
    GroupReadsBack(a, b, c, Sextets(rest), rest);
    SextetsOfMore(a, b, c, rest);
  }

  lemma OneByte(a: byte)
    ensures Bytes(Sextets([a])) == Some([a])
  {
    assert a % 4 * 16 / 16 == a % 4;
  }

  lemma TwoBytes(a: byte, b: byte)
    ensures Bytes(Sextets([a, b])) == Some([a, b])
  {
    assert b % 16 * 4 / 4 == b % 16;
    assert (a % 4 * 16 + b / 16) / 16 == a % 4 && (a % 4 * 16 + b / 16) % 16 == b / 16;
  }

  lemma {:induction false} BytesRoundTrip(b: seq<byte>)
    ensures Bytes(Sextets(b)) == Some(b)
  {
    if |b| == 1 {
      OneByte(b[0]);
      assert b == [b[0]];
    } else if |b| == 2 {
      TwoBytes(b[0], b[1]);
      assert b == [b[0], b[1]];
    } else if b != [] {
      BytesRoundTrip(b[3..]);
      ThreeMoreBytes(b[0], b[1], b[2], b[3..]);
      assert b == [b[0], b[1], b[2]] + b[3..];
    }
  }

  /** Four characters for each three bytes begun. */
  function EncodedSize(n: nat): nat {
    if n == 0 then 0 else if n <= 3 then 4 else 4 + EncodedSize(n - 3)
  }

  lemma {:induction false} EncodedSizeIs(n: nat)
    ensures EncodedSize(n) == (n + 2) / 3 * 4
    ensures EncodedSize(n) % 4 == 0
  {
    if n > 3 {
      EncodedSizeIs(n - 3);
      assert (n + 2) / 3 == 1 + (n - 3 + 2) / 3;
    }
  }

  lemma PaddingRepeats(n: nat)
    requires n >= 3
    ensures Padding(n) == Padding(n - 3)
  {
  }

  lemma {:induction false} SextetsAndPadding(b: seq<byte>)
    ensures |Sextets(b)| + |Padding(|b|)| == EncodedSize(|b|)
  {
    if |b| >= 3 {
      SextetsAndPadding(b[3..]);
      PaddingRepeats(|b|);
    }
  }

  /** No padding if the last three bytes are complete. */
  lemma EncodedLength(b: seq<byte>)
    ensures |Encode64(b)| == (|b| + 2) / 3 * 4
    ensures |b| % 3 == 0 ==> '=' !in Encode64(b)
  {
    EncodedSizeIs(|b|);
    SextetsAndPadding(b);
    CharsRoundTrip(Sextets(b));
  }

  /** Padding is told from what it pads. */
  lemma PaddingIsFound(s: string, n: nat)
    requires '=' !in s
    ensures PaddingOf(s + Padding(n)) == |Padding(n)| && (s + Padding(n))[..|s|] == s
  {
    var t := s + Padding(n);
    if |Padding(n)| < 2 && s != "" {
      assert t[|s| - 1] == s[|s| - 1] && s[|s| - 1] in s;
    }
  }

  lemma PaddedDecodes(s: string, n: nat, q: seq<sextet>, b: seq<byte>)
    requires '=' !in s && (|s| + |Padding(n)|) % 4 == 0 && FromChars(s) == Some(q) && Bytes(q) == Some(b)
    ensures Decode64(s + Padding(n)) == Some(b)
  {
    PaddingIsFound(s, n);
  }

  lemma Base64RoundTrip(b: seq<byte>)
    ensures Decode64(Encode64(b)) == Some(b)
    ensures b != [] ==> Encode64(b) != ""
  {
    EncodedSizeIs(|b|);
    SextetsAndPadding(b);
    CharsRoundTrip(Sextets(b));
    BytesRoundTrip(b);
    PaddedDecodes(ToChars(Sextets(b)), |b|, Sextets(b), b);
  }

  /** The alphabet is the one for URLs: letters, digits, - and _, and = at the end. */
  lemma {:induction false} CharsAreUrlSafe(q: seq<sextet>)
    ensures forall c | c in ToChars(q) :: 'A' <= c <= 'Z' || 'a' <= c <= 'z' || '0' <= c <= '9' || c == '-' || c == '_'
  {
    if q != [] {
      CharsAreUrlSafe(q[1..]);
    }
  }

  /** Examples of section 10 of RFC 4648; FullExamples64 has one with the two last characters of the alphabet. */
  lemma Examples64()
    ensures Encode64([]) == "" && Encode64([102]) == "Zg==" && Encode64([102, 111]) == "Zm8="
  {
    OneByteEncoded(102);
    TwoBytesEncoded(102, 111);
  }

  lemma FullExamples64()
    ensures Encode64([102, 111, 111]) == "Zm9v" && Encode64([251, 255, 191]) == "-_-_"
  {
    ThreeBytesEncoded(102, 111, 111);
    ThreeBytesEncoded(251, 255, 191);
  }

  lemma OneByteEncoded(a: byte)
    ensures Encode64([a]) == [SextetChar(a / 4), SextetChar(a % 4 * 16), '=', '=']
  {
    CharsOf(a / 4, [a % 4 * 16]);
    CharsOf(a % 4 * 16, []);
  }

  lemma TwoBytesEncoded(a: byte, b: byte)
    ensures Encode64([a, b]) == [SextetChar(a / 4), SextetChar(a % 4 * 16 + b / 16), SextetChar(b % 16 * 4), '=']
  {
    CharsOf(a / 4, [a % 4 * 16 + b / 16, b % 16 * 4]);
    CharsOf(a % 4 * 16 + b / 16, [b % 16 * 4]);
    CharsOf(b % 16 * 4, []);
  }

  lemma ThreeBytesEncoded(a: byte, b: byte, c: byte)
    ensures Encode64([a, b, c]) ==
            [SextetChar(a / 4), SextetChar(a % 4 * 16 + b / 16), SextetChar(b % 16 * 4 + c / 64), SextetChar(c % 64)]
  {
    SextetsOfMore(a, b, c, []);
    assert [a, b, c] + [] == [a, b, c];
    FourChars(a / 4, a % 4 * 16 + b / 16, b % 16 * 4 + c / 64, c % 64);
  }

  lemma FourChars(p: sextet, q: sextet, r: sextet, t: sextet)
    ensures ToChars([p, q, r, t] + []) == [SextetChar(p), SextetChar(q), SextetChar(r), SextetChar(t)]
  {
    assert [p, q, r, t] + [] == [p] + [q, r, t];
    CharsOf(p, [q, r, t]);
    CharsOf(q, [r, t]);
    CharsOf(r, [t]);
    CharsOf(t, []);
  }

  lemma CharsOf(first: sextet, rest: seq<sextet>)
    ensures ToChars([first] + rest) == [SextetChar(first)] + ToChars(rest)
  {
    assert ([first] + rest)[1..] == rest;
  }

  // ---------- UTF-8 ----------

  function EncodeChar(c: char): seq<byte> {
    var n := c as int;
    if n < 0x80 then [n]
    else if n < 0x800 then [0xC0 + n / 64, 0x80 + n % 64]
    else if n < 0x10000 then [0xE0 + n / 4096, 0x80 + n / 64 % 64, 0x80 + n % 64]
    else [0xF0 + n / 262144, 0x80 + n / 4096 % 64, 0x80 + n / 64 % 64, 0x80 + n % 64]
  }

  function EncodeUtf8(s: string): seq<byte> {
    if s == "" then [] else EncodeChar(s[0]) + EncodeUtf8(s[1..])
  }

  lemma {:induction false} AsciiLength(s: string)
    requires forall c | c in s :: c as int < 0x80
    ensures |EncodeUtf8(s)| == |s|
  {
    if s != "" {
      assert s[0] in s && forall c | c in s[1..] :: c in s;
      AsciiLength(s[1..]);
    }
  }

  /** Characters of each encoded length. */
  lemma ExamplesUtf8()
    ensures EncodeChar('A') == [0x41] && EncodeChar('\U{E9}') == [0xC3, 0xA9]
    ensures EncodeChar('\U{20AC}') == [0xE2, 0x82, 0xAC] && EncodeChar('\U{1F600}') == [0xF0, 0x9F, 0x98, 0x80]
  {
  }

  predicate Continues(b: byte) {
    0x80 <= b < 0xC0
  }

  /** A code point outside the surrogates, and no smaller than its encoded length allows. */
  predicate Scalar(n: int, least: int) {
    least <= n && (n < 0xD800 || 0xE000 <= n < 0x110000)
  }

  /** The first character of the bytes and how many bytes it takes. */
  function DecodeChar(b: seq<byte>): Option<(char, nat)>
    requires b != []
  {
    if b[0] < 0x80 then Some((b[0] as char, 1))
    else if 0xC0 <= b[0] < 0xE0 && |b| >= 2 && Continues(b[1]) then
      var n: int := (b[0] as int - 0xC0) * 64 + (b[1] as int - 0x80);
      if Scalar(n, 0x80) then Some((n as char, 2)) else None
    else if 0xE0 <= b[0] < 0xF0 && |b| >= 3 && Continues(b[1]) && Continues(b[2]) then
      var n: int := (b[0] as int - 0xE0) * 4096 + (b[1] as int - 0x80) * 64 + (b[2] as int - 0x80);
      if Scalar(n, 0x800) then Some((n as char, 3)) else None
    else if 0xF0 <= b[0] < 0xF8 && |b| >= 4 && Continues(b[1]) && Continues(b[2]) && Continues(b[3]) then
      var n: int := (b[0] as int - 0xF0) * 262144 + (b[1] as int - 0x80) * 4096 + (b[2] as int - 0x80) * 64 + (b[3] as int - 0x80);
      if Scalar(n, 0x10000) then Some((n as char, 4)) else None
    else None
  }

  function DecodeUtf8(b: seq<byte>): Option<string>
    decreases |b|
  {
    if b == [] then Some("")
    else
      var head := DecodeChar(b);
      if head.None? then None
      else
        var tail := DecodeUtf8(b[Min(head.value.1, |b|)..]);
        if tail.None? then None else Some([head.value.0] + tail.value)
  }

  lemma Sixes(n: nat)
    ensures n / 64 * 64 + n % 64 == n
    ensures n / 4096 * 4096 + n / 64 % 64 * 64 + n % 64 == n
    ensures n / 262144 * 262144 + n / 4096 % 64 * 4096 + n / 64 % 64 * 64 + n % 64 == n
  {
    assert n / 64 / 64 == n / 4096 && n / 4096 / 64 == n / 262144;
  }

  lemma CharRoundTrip(c: char, rest: seq<byte>)
    ensures DecodeChar(EncodeChar(c) + rest) == Some((c, |EncodeChar(c)|))
  {
    var n, b := c as int, EncodeChar(c) + rest;
    Sixes(n);
    if n < 0x80 {
      assert b[0] == n;
    } else if n < 0x800 {
      assert b[0] == 0xC0 + n / 64 && b[1] == 0x80 + n % 64;
    } else if n < 0x10000 {
      assert b[0] == 0xE0 + n / 4096 && b[1] == 0x80 + n / 64 % 64 && b[2] == 0x80 + n % 64;
    } else {
      assert b[0] == 0xF0 + n / 262144 && b[1] == 0x80 + n / 4096 % 64 && b[2] == 0x80 + n / 64 % 64 && b[3] == 0x80 + n % 64;
    }
  }

  lemma {:induction false} Utf8RoundTrip(s: string)
    ensures DecodeUtf8(EncodeUtf8(s)) == Some(s)
    ensures s != "" ==> EncodeUtf8(s) != []
  {
    if s != "" {
      CharRoundTrip(s[0], EncodeUtf8(s[1..]));
      Utf8RoundTrip(s[1..]);
      assert EncodeUtf8(s)[|EncodeChar(s[0])|..] == EncodeUtf8(s[1..]);
      assert s == [s[0]] + s[1..];
    }
  }

  // ---------- datetime.isoformat and fromisoformat ----------

  datatype Clock = Clock(hour: nat, minute: nat, second: nat, micro: nat)

  datatype Offset = Offset(negative: bool, size: Clock)

  datatype DateTime = DateTime(year: nat, month: nat, day: nat, clock: Clock, offset: Option<Offset>)

  predicate ValidClock(c: Clock) {
    c.hour < 24 && c.minute < 60 && c.second < 60 && c.micro < 1_000_000
  }

  function DaysIn(year: nat, month: nat): nat {
    if month == 2 then if year % 4 == 0 && (year % 100 != 0 || year % 400 == 0) then 29 else 28
    else if month in {4, 6, 9, 11} then 30
    else 31
  }

  /** Leap years are those divisible by four, except of the full hundreds those not divisible by four hundred. */
  lemma LeapYears(year: nat, month: nat)
    requires 1 <= month <= 12
    ensures 28 <= DaysIn(year, month) <= 31
    ensures DaysIn(2024, 2) == 29 && DaysIn(2023, 2) == 28 && DaysIn(1900, 2) == 28 && DaysIn(2000, 2) == 29
    ensures month != 2 ==> (DaysIn(year, month) == 31 <==> month in [1, 3, 5, 7, 8, 10, 12])
  {
  }

  /** A date of the calendar, and an offset below 24 hours; zero has no sign. */
  predicate Valid(t: DateTime) {
    && 1 <= t.year <= 9999 && 1 <= t.month <= 12 && 1 <= t.day <= DaysIn(t.year, t.month)
    && ValidClock(t.clock)
    && (t.offset.Some? ==>
          && ValidClock(t.offset.value.size)
          && (t.offset.value.negative ==> t.offset.value.size != Clock(0, 0, 0, 0)))
  }

  lemma Powers()
    ensures Pow10(2) == 100 && Pow10(4) == 10_000 && Pow10(6) == 1_000_000
  {
  }

  function Two(n: nat): (s: string)
    requires n < 100
    ensures |s| == 2 && AllDigits(s) && ValueOf(s) == n
  {
    Powers();
    Padded(n, 2)
  }

  function Micros(n: nat): (s: string)
    requires n < 1_000_000
    ensures n != 0 ==> |s| == 7 && s[0] == '.' && AllDigits(s[1..]) && ValueOf(s[1..]) == n
    ensures n == 0 ==> s == ""
  {
    Powers();
    if n == 0 then "" else
      assert ("." + Padded(n, 6))[1..] == Padded(n, 6);
      "." + Padded(n, 6)
  }

  function FormatClock(c: Clock): string
    requires ValidClock(c)
  {
    Two(c.hour) + ":" + Two(c.minute) + ":" + Two(c.second) + Micros(c.micro)
  }

  /** A UTC offset leaves its seconds out when there is nothing after the minutes. */
  function FormatOffset(o: Offset): string
    requires ValidClock(o.size)
  {
    (if o.negative then "-" else "+") +
    if o.size.second == 0 && o.size.micro == 0 then Two(o.size.hour) + ":" + Two(o.size.minute)
    else FormatClock(o.size)
  }

  function FormatDate(year: nat, month: nat, day: nat): (s: string)
    requires year <= 9999 && month < 100 && day < 100
    ensures |s| == 10
  {
    Powers();
    Padded(year, 4) + "-" + Two(month) + "-" + Two(day)
  }

  function Iso(t: DateTime): string
    requires Valid(t)
  {
    FormatDate(t.year, t.month, t.day) + "T" + FormatClock(t.clock) + Zone(t.offset)
  }

  /** Numbers of two and four digits, digit by digit. */
  lemma TwoDigits(n: nat)
    requires n < 100
    ensures Two(n) == [Digit(n / 10), Digit(n % 10)]
  {
    assert Padded(n / 10 / 10, 0) == "" && Padded(n / 10, 1) == [Digit(n / 10 % 10)];
  }

  lemma FourDigits(n: nat)
    requires n < 10_000
    ensures n < Pow10(4) && Padded(n, 4) == [Digit(n / 1000), Digit(n / 100 % 10)] + [Digit(n / 10 % 10), Digit(n % 10)]
  {
    Powers();
    TwoDigits(n / 100);
    assert n / 10 / 10 == n / 100 && n / 100 / 10 == n / 1000;
    assert Padded(n / 100, 2) == Two(n / 100);
    assert Padded(n / 10, 3) == Padded(n / 100, 2) + [Digit(n / 10 % 10)];
  }

  /** A date is its year, month and day with hyphens, a clock its hours, minutes and seconds with colons. */
  lemma DateAndClockLayout(year: nat, month: nat, day: nat, c: Clock)
    requires year < 10_000 && month < 100 && day < 100 && ValidClock(c)
    ensures var s := FormatDate(year, month, day);
            && s[0] == Digit(year / 1000) && s[1] == Digit(year / 100 % 10) && s[2] == Digit(year / 10 % 10) && s[3] == Digit(year % 10)
            && s[4] == '-' && s[5] == Digit(month / 10) && s[6] == Digit(month % 10)
            && s[7] == '-' && s[8] == Digit(day / 10) && s[9] == Digit(day % 10)
    ensures var s := FormatClock(c);
            && |s| >= 8
            && s[0] == Digit(c.hour / 10) && s[1] == Digit(c.hour % 10) && s[2] == ':'
            && s[3] == Digit(c.minute / 10) && s[4] == Digit(c.minute % 10) && s[5] == ':'
            && s[6] == Digit(c.second / 10) && s[7] == Digit(c.second % 10)
            && (c.micro == 0 <==> |s| == 8) && (c.micro != 0 ==> |s| == 15 && s[8] == '.' && ValueOf(Micros(c.micro)[1..]) == c.micro)
  {
    FourDigits(year);
    TwoDigits(month);
    TwoDigits(day);
    TwoDigits(c.hour);
    TwoDigits(c.minute);
    TwoDigits(c.second);
  }

  /** A UTC offset is a sign, hours and minutes, and seconds only if there are any. */
  lemma UtcIsWritten()
    ensures Zone(Some(Offset(false, Clock(0, 0, 0, 0)))) == "+00:00" && Zone(None) == ""
    ensures Zone(Some(Offset(true, Clock(3, 30, 0, 0)))) == "-03:30"
  {
    ZeroSeconds();
    TwoDigits(3);
    TwoDigits(30);
  }

  /** The number in the given field of the text. */
  function Field(s: string, at: nat, width: nat): Option<nat> {
    if at + width <= |s| && AllDigits(s[at..at + width]) then Some(ValueOf(s[at..at + width])) else None
  }

  function ParseClock(s: string): Option<Clock> {
    var h, m, sec := Field(s, 0, 2), Field(s, 3, 2), Field(s, 6, 2);
    if h.None? || m.None? || sec.None? || s[2] != ':' || s[5] != ':' then None
    else if |s| == 8 then Some(Clock(h.value, m.value, sec.value, 0))
    else if |s| == 15 && s[8] == '.' && Field(s, 9, 6).Some? then
      Some(Clock(h.value, m.value, sec.value, Field(s, 9, 6).value))
    else None
  }

  function ParseOffset(s: string): Option<Offset> {
    if s == "" || (s[0] != '-' && s[0] != '+') then None
    else
      var size := ParseClock(if |s| == 6 then s[1..] + ":00" else s[1..]);
      if size.None? then None else Some(Offset(s[0] == '-', size.value))
  }

  /** What follows the T: a clock, and perhaps an offset. */
  function ParseTime(s: string): Option<(Clock, Option<Offset>)> {
    var width := if |s| > 8 && s[8] == '.' then 15 else 8;
    if |s| < width then None
    else
      var clock, zone := ParseClock(s[..width]), s[width..];
      var offset := ParseOffset(zone);
      if clock.None? || (zone != "" && offset.None?) then None else Some((clock.value, offset))
  }

  function ParseIso(s: string): Option<DateTime> {
    var year, month, day := Field(s, 0, 4), Field(s, 5, 2), Field(s, 8, 2);
    if |s| < 11 || year.None? || month.None? || day.None? || s[4] != '-' || s[7] != '-' || s[10] != 'T' then None
    else
      var time := ParseTime(s[11..]);
      if time.None? then None
      else
        var t := DateTime(year.value, month.value, day.value, time.value.0, time.value.1);
        if Valid(t) then Some(t) else None
  }

  lemma ClockRoundTrip(c: Clock)
    requires ValidClock(c)
    ensures ParseClock(FormatClock(c)) == Some(c)
    ensures |FormatClock(c)| == (if c.micro == 0 then 8 else 15)
    ensures c.micro != 0 ==> FormatClock(c)[8] == '.'
  {
    var s := FormatClock(c);
    assert s[0..2] == Two(c.hour) && s[3..5] == Two(c.minute) && s[6..8] == Two(c.second);
    if c.micro != 0 {
      assert s[9..15] == Micros(c.micro)[1..];
    }
  }

  lemma OffsetRoundTrip(o: Offset)
    requires ValidClock(o.size)
    ensures ParseOffset(FormatOffset(o)) == Some(o)
    ensures FormatOffset(o)[0] == '-' || FormatOffset(o)[0] == '+'
  {
    var s := FormatOffset(o);
    ClockRoundTrip(o.size);
    if o.size.second == 0 && o.size.micro == 0 {
      assert s[1..] + ":00" == FormatClock(o.size) by {
        ZeroSeconds();
        assert s[1..] == Two(o.size.hour) + ":" + Two(o.size.minute);
      }
    } else {
      assert s[1..] == FormatClock(o.size);
    }
  }

  lemma ZeroSeconds()
    ensures Two(0) == "00" && Micros(0) == ""
  {
  }

  lemma DateRoundTrip(year: nat, month: nat, day: nat, rest: string)
    requires year <= 9999 && month < 100 && day < 100
    ensures var s := FormatDate(year, month, day) + rest;
            && Field(s, 0, 4) == Some(year) && Field(s, 5, 2) == Some(month) && Field(s, 8, 2) == Some(day)
            && s[4] == '-' && s[7] == '-' && s[10..] == rest
  {
    Powers();
    var s := FormatDate(year, month, day) + rest;
    assert s[0..4] == Padded(year, 4) && s[5..7] == Two(month) && s[8..10] == Two(day);
  }

  lemma TimeRoundTrip(c: Clock, o: Option<Offset>)
    requires ValidClock(c) && (o.Some? ==> ValidClock(o.value.size))
    ensures ParseTime(FormatClock(c) + Zone(o)) == Some((c, o))
  {
    var rest, width := FormatClock(c) + Zone(o), |FormatClock(c)|;
    ClockRoundTrip(c);
    if o.Some? { OffsetRoundTrip(o.value); }
    if c.micro == 0 && o.Some? { assert rest[8] == Zone(o)[0]; }
    assert rest[..width] == FormatClock(c) && rest[width..] == Zone(o);
  }

  function Zone(o: Option<Offset>): string
    requires o.Some? ==> ValidClock(o.value.size)
  {
    if o.Some? then FormatOffset(o.value) else ""
  }

  lemma ParsedFromParts(s: string, t: DateTime)
    requires Valid(t) && |s| >= 11
    requires Field(s, 0, 4) == Some(t.year) && Field(s, 5, 2) == Some(t.month) && Field(s, 8, 2) == Some(t.day)
    requires s[4] == '-' && s[7] == '-' && s[10] == 'T' && ParseTime(s[11..]) == Some((t.clock, t.offset))
    ensures ParseIso(s) == Some(t)
  {
  }

  lemma IsoRoundTrip(t: DateTime)
    requires Valid(t)
    ensures ParseIso(Iso(t)) == Some(t)
  {
    IsoParts(FormatDate(t.year, t.month, t.day), FormatClock(t.clock), Zone(t.offset));
    DateRoundTrip(t.year, t.month, t.day, "T" + (FormatClock(t.clock) + Zone(t.offset)));
    TimeRoundTrip(t.clock, t.offset);
    ParsedFromParts(Iso(t), t);
  }

  lemma IsoParts(date: string, clock: string, zone: string)
    requires |date| == 10
    ensures var s := date + "T" + clock + zone;
            s == date + ("T" + (clock + zone)) && s[10] == 'T' && s[11..] == clock + zone
  {
  }

  // ---------- the cursor ----------

  /** s.rsplit(c, 1) where c occurs: what stands before its last occurrence, and after. */
  function SplitAtLast(s: string, c: char): (r: Option<(string, string)>)
    ensures r.Some? ==> s == r.value.0 + [c] + r.value.1 && c !in r.value.1
    ensures r.None? ==> c !in s
  {
    if s == "" then None
    else
      var n := |s| - 1;
      assert s == s[..n] + [s[n]];
      if s[n] == c then Some((s[..n], ""))
      else
        var r := SplitAtLast(s[..n], c);
        if r.None? then None else Some((r.value.0, r.value.1 + [s[n]]))
  }

  lemma {:induction false} LastSplitFinds(a: string, b: string, c: char)
    requires c !in b
    ensures SplitAtLast(a + [c] + b, c) == Some((a, b))
  {
    var s := a + [c] + b;
    if b == "" {
      assert s[..|s| - 1] == a;
    } else {
      var init := b[..|b| - 1];
      assert s[..|s| - 1] == a + [c] + init;
      LastSplitFinds(a, init, c);
      assert init + [s[|s| - 1]] == b;
    }
  }

  function EncodeCursor(t: DateTime, id: string): string
    requires Valid(t)
  {
    Encode64(EncodeUtf8(Iso(t) + ":" + id))
  }

  function DecodeCursor(cursor: string): Option<(DateTime, string)> {
    var bytes := Decode64(cursor);
    if bytes.None? then None
    else
      var raw := DecodeUtf8(bytes.value);
      if raw.None? then None
      else
        var parts := SplitAtLast(raw.value, ':');
        if parts.None? then None
        else
          var t := ParseIso(parts.value.0);
          if t.None? then None else Some((t.value, parts.value.1))
  }

  lemma CursorTextRoundTrip(t: DateTime, id: string)
    requires Valid(t)
    ensures var raw := Iso(t) + ":" + id;
            Decode64(EncodeCursor(t, id)) == Some(EncodeUtf8(raw)) && DecodeUtf8(EncodeUtf8(raw)) == Some(raw)
    ensures EncodeCursor(t, id) != ""
  {
    Utf8RoundTrip(Iso(t) + ":" + id);
    Base64RoundTrip(EncodeUtf8(Iso(t) + ":" + id));
  }

  /** A cursor reads back as the timestamp and id it was made of exactly when the id has no colon, as no UUID has. */
  lemma CursorRoundTripsExactly(t: DateTime, id: string)
    requires Valid(t)
    ensures DecodeCursor(EncodeCursor(t, id)) == Some((t, id)) <==> ':' !in id
  {
    var raw := Iso(t) + ":" + id;
    CursorTextRoundTrip(t, id);
    IsoRoundTrip(t);
    if ':' !in id {
      LastSplitFinds(Iso(t), id, ':');
    }
  }

  /** No two positions share a cursor, and none is empty, so `if after_cursor` takes every cursor for one. */
  lemma CursorsAreDistinct(t: DateTime, id: string, u: DateTime, jd: string)
    requires Valid(t) && Valid(u) && ':' !in id && ':' !in jd
    ensures EncodeCursor(t, id) == EncodeCursor(u, jd) <==> t == u && id == jd
    ensures EncodeCursor(t, id) != ""
  {
    CursorTextRoundTrip(t, id);
    CursorRoundTripsExactly(t, id);
    CursorRoundTripsExactly(u, jd);
  }
}
