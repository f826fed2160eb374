/**
 Range requests for a local video file: parsing of the header, the 206 or 416 decision, and the loops
 that send the bytes in chunks of at most 64 KB. The file does not change while it is sent.
 */
module RangeStreaming {
  import opened Common
  import opened Text

  const CHUNK: nat := 65536

  // ---------- the header ----------

  /** s.replace("bytes=", "") */
  function WithoutUnit(s: string): string {
    Removed(s, "bytes=")
  }

  /** Decimal digits, with single underscores between them where the literal has any. */
  predicate IsIntLiteral(s: string) {
    && s != "" && IsDigit(s[0]) && IsDigit(s[|s| - 1])
    && forall i | 0 <= i < |s| :: IsDigit(s[i]) || (s[i] == '_' && 0 < i && s[i - 1] != '_')
  }

  function DigitsIn(s: string): (d: string)
    ensures AllDigits(d)
  {
    if s == "" then "" else (if IsDigit(s[0]) then [s[0]] else "") + DigitsIn(s[1..])
  }

  /** int(s): None where Python raises ValueError. */
  function ParseInt(s: string): Option<int> {
    var t := Strip(s);
    var signed := t != "" && (t[0] == '-' || t[0] == '+');
    var body := if signed then t[1..] else t;
    if !IsIntLiteral(body) then None
    else
      var n: int := ValueOf(DigitsIn(body));
      Some(if signed && t[0] == '-' then -n else n)
  }

  datatype Range = Range(start: int, end: int)

  /** bytes=start-end or bytes=start-; None where an exception makes the answer 416. Parts after a second dash are ignored. */
  function ParseRange(header: string, size: nat): Option<Range> {
    var parts := Split(Strip(WithoutUnit(header)), '-');
    var start := ParseInt(parts[0]);
    if start.None? || |parts| < 2 then None
    else if parts[1] == "" then Some(Range(start.value, size - 1))
    else
      var end := ParseInt(parts[1]);
      if end.None? then None else Some(Range(start.value, end.value))
  }

  datatype Answer =
    | Full(length: nat)
    | Partial(start: nat, end: nat, length: nat)
    | NotSatisfiable

  /** The status and headers: no header means the whole file, a refused one 416, the rest 206. */
  function AnswerTo(header: Option<string>, size: nat): Answer {
    if header.None? || header.value == "" then Full(size)
    else
      var r := ParseRange(header.value, size);
      if r.None? || r.value.start >= size || r.value.end >= size || r.value.start > r.value.end then NotSatisfiable
      else
        ParsedStartIsNat(header.value, size);
        var end := Min(r.value.end, size - 1);
        Partial(r.value.start, end, end - r.value.start + 1)
  }

  lemma {:induction false} StripKeeps(s: string)
    ensures forall c | c in Strip(s) :: c in s
  {
    if s != "" && IsSpace(s[0]) {
      StripKeeps(s[1..]);
    } else if s != "" && IsSpace(s[|s| - 1]) {
      StripKeeps(s[..|s| - 1]);
    }
  }

  lemma ParseIntWithoutMinus(s: string)
    requires '-' !in s && ParseInt(s).Some?
    ensures ParseInt(s).value >= 0
  {
    StripKeeps(s);
    if Strip(s) != "" { assert Strip(s)[0] in Strip(s); }
  }

  /** The start is never negative: a minus sign would have been taken for the dash. */
  lemma ParsedStartIsNat(header: string, size: nat)
    ensures ParseRange(header, size).Some? ==> ParseRange(header, size).value.start >= 0
  {
    var parts := Split(Strip(WithoutUnit(header)), '-');
    assert '-' !in parts[0];
    if ParseInt(parts[0]).Some? { ParseIntWithoutMinus(parts[0]); }
  }

  /** An accepted range lies inside the file, and its headers agree with it and each other (section 14.4 of RFC 9110). */
  lemma AcceptedRangeIsInsideTheFile(header: Option<string>, size: nat)
    ensures var a := AnswerTo(header, size);
            a.Partial? ==> 0 <= a.start <= a.end < size && a.length == a.end - a.start + 1
    ensures AnswerTo(header, size).Full? <==> header.None? || header.value == ""
  {
  }

  // ---------- headers that clients write ----------

  lemma NothingToStrip(s: string)
    requires s != "" && !IsSpace(s[0]) && !IsSpace(s[|s| - 1])
    ensures Strip(s) == s
  {
  }

  lemma {:induction false} DigitsInDigits(s: string)
    requires AllDigits(s)
    ensures DigitsIn(s) == s
  {
    if s != "" {
      assert s[0] in s;
      DigitsInDigits(s[1..]);
      assert s == [s[0]] + s[1..];
    }
  }

  lemma ParseIntOfDecimal(n: nat)
    ensures ParseInt(Decimal(n)) == Some(n)
  {
    var s := Decimal(n);
    assert forall i | 0 <= i < |s| :: s[i] in s;
    NothingToStrip(s);
    DigitsInDigits(s);
  }

  lemma WithoutTheUnit(range: string)
    requires 'b' !in range && range != "" && !IsSpace(range[0]) && !IsSpace(range[|range| - 1])
    ensures Strip(WithoutUnit("bytes=" + range)) == range
  {
    assert "bytes=" <= "bytes=" + range && ("bytes=" + range)[6..] == range;
    NothingToRemove(range, "bytes=");
    NothingToStrip(range);
  }

  lemma UnitAndDash(a: string, b: string)
    requires AllDigits(a) && AllDigits(b) && a != ""
    ensures Split(Strip(WithoutUnit("bytes=" + (a + "-" + b))), '-') == [a, b]
  {
    var range := a + "-" + b;
    assert range[0] == a[0] && a[0] in a;
    assert range[|range| - 1] == (if b == "" then '-' else b[|b| - 1]) && (b != "" ==> b[|b| - 1] in b);
    WithoutTheUnit(range);
    SplitAtFirst(a, b, '-');
    SplitOfWhole(b, '-');
  }

  /** What a header of decimal numbers parses to. */
  lemma ParsedDecimals(first: nat, last: nat, size: nat)
    ensures ParseRange("bytes=" + (Decimal(first) + "-" + Decimal(last)), size) == Some(Range(first, last))
  {
    ParseIntOfDecimal(first);
    ParseIntOfDecimal(last);
    UnitAndDash(Decimal(first), Decimal(last));
  }

  lemma ParsedOpenRange(first: nat, size: nat)
    ensures ParseRange("bytes=" + (Decimal(first) + "-" + ""), size) == Some(Range(first, size - 1))
  {
    ParseIntOfDecimal(first);
    UnitAndDash(Decimal(first), "");
  }

  /** A first-last range is served as asked exactly when it lies within the file, and refused otherwise. */
  lemma ClosedRangeIsServedExactly(first: nat, last: nat, size: nat)
    ensures AnswerTo(Some("bytes=" + (Decimal(first) + "-" + Decimal(last))), size) ==
            if first <= last < size then Partial(first, last, last - first + 1) else NotSatisfiable
  {
    ParsedDecimals(first, last, size);
  }

  /** An open range runs to the last byte of the file. */
  lemma OpenRangeRunsToTheEnd(first: nat, size: nat)
    ensures AnswerTo(Some("bytes=" + (Decimal(first) + "-" + "")), size) ==
            if first < size then Partial(first, size - 1, size - first) else NotSatisfiable
  {
    ParsedOpenRange(first, size);
  }

  /** The unit can be left out. */
  lemma UnitIsOptional(first: nat, last: nat, size: nat)
    ensures ParseRange(Decimal(first) + "-" + Decimal(last), size) == Some(Range(first, last))
  {
    ParseIntOfDecimal(first);
    ParseIntOfDecimal(last);
    PlainParts(Decimal(first), Decimal(last));
  }

  lemma PlainParts(a: string, b: string)
    requires AllDigits(a) && AllDigits(b) && a != "" && b != ""
    ensures Split(Strip(WithoutUnit(a + "-" + b)), '-') == [a, b]
  {
    var range := a + "-" + b;
    DecimalsHaveNoUnit(a, b);
    NothingToRemove(range, "bytes=");
    NothingToStrip(range);
    SplitAtFirst(a, b, '-');
    SplitOfWhole(b, '-');
  }

  /** What stands after a second dash does not count. */
  lemma RestIsIgnored(a: string, b: string, rest: string, size: nat)
    requires AllDigits(a) && AllDigits(b) && a != "" && b != "" && 'b' !in rest && (rest == "" || !IsSpace(rest[|rest| - 1]))
    ensures ParseRange("bytes=" + (a + "-" + (b + ("-" + rest))), size) == ParseRange("bytes=" + (a + "-" + b), size)
  {
    UnitAndDash(a, b);
    PlainBeforeDash(a, b + ("-" + rest));
    SplitThree(a, b, rest);
    TwoPartsDecide("bytes=" + (a + "-" + (b + ("-" + rest))), "bytes=" + (a + "-" + b), size);
  }

  /** Only the first two parts are read. */
  lemma TwoPartsDecide(header: string, other: string, size: nat)
    requires |Split(Strip(WithoutUnit(header)), '-')| >= 2 && |Split(Strip(WithoutUnit(other)), '-')| >= 2
    requires Split(Strip(WithoutUnit(header)), '-')[0] == Split(Strip(WithoutUnit(other)), '-')[0]
    requires Split(Strip(WithoutUnit(header)), '-')[1] == Split(Strip(WithoutUnit(other)), '-')[1]
    ensures ParseRange(header, size) == ParseRange(other, size)
  {
  }

  lemma PlainBeforeDash(a: string, tail: string)
    requires AllDigits(a) && a != "" && tail != "" && 'b' !in tail && !IsSpace(tail[|tail| - 1])
    ensures Strip(WithoutUnit("bytes=" + (a + "-" + tail))) == a + "-" + tail
  {
    assert a[0] in a;
    WithoutTheUnit(a + "-" + tail);
  }

  lemma SplitThree(a: string, b: string, rest: string)
    requires '-' !in a && '-' !in b
    ensures Split(a + "-" + (b + ("-" + rest)), '-') == [a] + ([b] + Split(rest, '-'))
  {
    SplitAtFirst(a, b + ("-" + rest), '-');
    assert b + ("-" + rest) == b + "-" + rest;
    SplitAtFirst(b, rest, '-');
  }

  lemma DecimalsHaveNoUnit(a: string, b: string)
    requires AllDigits(a) && AllDigits(b) && a != "" && b != ""
    ensures 'b' !in a + "-" + b
    ensures !IsSpace((a + "-" + b)[0]) && !IsSpace((a + "-" + b)[|a + "-" + b| - 1])
  {
    var s := a + "-" + b;
    assert s[0] == a[0] && a[0] in a && s[|s| - 1] == b[|b| - 1] && b[|b| - 1] in b;
  }

  /** int() reads a sign before the digits. */
  lemma SignIsRead(s: string, sign: char)
    requires AllDigits(s) && s != "" && (sign == '-' || sign == '+')
    ensures ParseInt([sign] + s) == Some(if sign == '-' then -(ValueOf(s) as int) else ValueOf(s))
  {
    var t := [sign] + s;
    LastIsDigit(s);
    assert t[|t| - 1] == s[|s| - 1] && t[1..] == s;
    NothingToStrip(t);
    DigitsAreLiteral(s);
    DigitsInDigits(s);
  }

  lemma LastIsDigit(s: string)
    requires AllDigits(s) && s != ""
    ensures IsDigit(s[0]) && IsDigit(s[|s| - 1])
  {
    assert s[0] in s && s[|s| - 1] in s;
  }

  lemma DigitsAreLiteral(s: string)
    requires AllDigits(s) && s != ""
    ensures IsIntLiteral(s)
  {
    assert forall i | 0 <= i < |s| :: s[i] in s;
  }

  /** And spaces around them do not matter. */
  lemma SpacesAreRead(s: string)
    requires AllDigits(s) && s != ""
    ensures ParseInt(" " + s + " ") == ParseInt(s)
  {
    SpacesComeOff(s);
  }

  lemma SpacesComeOff(s: string)
    requires AllDigits(s) && s != ""
    ensures Strip(" " + s + " ") == s == Strip(s)
  {
    assert s[0] in s && s[|s| - 1] in s;
    NothingToStrip(s);
    var t := s + " ";
    assert " " + s + " " == " " + t && (" " + t)[1..] == t && t[..|t| - 1] == s;
    assert t[0] == s[0];
    assert Strip(t) == Strip(s);
  }

  lemma SuffixParts(n: nat)
    ensures Split(Strip(WithoutUnit("bytes=" + ("-" + Decimal(n)))), '-') == ["", Decimal(n)]
  {
    var digits := Decimal(n);
    var suffix := "-" + digits;
    assert suffix[|suffix| - 1] == digits[|digits| - 1] && digits[|digits| - 1] in digits;
    WithoutTheUnit(suffix);
    SplitAtFirst("", digits, '-');
    SplitOfWhole(digits, '-');
    assert "" + ['-'] + digits == suffix;
  }

  /** A suffix range is always refused: what stands before its dash is no number. */
  lemma SuffixRangeIsRefused(n: nat, size: nat)
    ensures AnswerTo(Some("bytes=" + ("-" + Decimal(n))), size) == NotSatisfiable
  {
    SuffixParts(n);
    assert ParseInt("").None?;
  }

  // ---------- the chunk loops ----------

  /** An open file. A read may be short, but gives nothing only at the end. */
  class File {
    const data: seq<byte>
    const shortReads: (nat, nat) -> nat
    var pos: nat

    constructor (data: seq<byte>, shortReads: (nat, nat) -> nat)
      ensures this.data == data && this.shortReads == shortReads && pos == 0
    {
      this.data, this.shortReads, pos := data, shortReads, 0;
    }

    method Seek(offset: nat)
      modifies this
      ensures pos == offset
    {
      pos := offset;
    }

    method Read(count: nat) returns (chunk: seq<byte>)
      modifies this
      ensures |chunk| <= count && pos == old(pos) + |chunk|
      ensures chunk != [] ==> pos <= |data| && chunk == data[old(pos)..pos]
      ensures chunk == [] ==> old(pos) >= |data| || count == 0
    {
      if pos >= |data| || count == 0 {
        return [];
      }
      var most := Min(count, |data| - pos);
      var n := Max(1, Min(most, shortReads(pos, count)));
      chunk := data[pos..pos + n];
      pos := pos + n;
    }
  }

  function Concat(chunks: seq<seq<byte>>): seq<byte> {
    if chunks == [] then [] else Concat(chunks[..|chunks| - 1]) + chunks[|chunks| - 1]
  }

  predicate GoodChunks(chunks: seq<seq<byte>>) {
    forall i | 0 <= i < |chunks| :: 0 < |chunks[i]| <= CHUNK
  }

  lemma ConcatOneMore(chunks: seq<seq<byte>>, chunk: seq<byte>)
    ensures Concat(chunks + [chunk]) == Concat(chunks) + chunk
  {
  }

  /** generate_range: whatever the reads deliver, the chunks together are exactly the range, and stop there. */
  method SendRange(f: File, start: nat, end: nat) returns (chunks: seq<seq<byte>>)
    requires start <= end < |f.data|
    modifies f
    ensures Concat(chunks) == f.data[start..end + 1]
    ensures GoodChunks(chunks)
  {
    f.Seek(start);
    var remaining := end - start + 1;
    chunks := [];
    while remaining > 0
      invariant 0 <= remaining && f.pos + remaining == end + 1 && start <= f.pos
      invariant Concat(chunks) == f.data[start..f.pos]
      invariant GoodChunks(chunks)
    {
      var from := f.pos;
      var data := f.Read(Min(CHUNK, remaining));
      if data == [] {
        break;
      }
      remaining := remaining - |data|;
      ConcatOneMore(chunks, data);
      assert f.data[start..from] + f.data[from..f.pos] == f.data[start..f.pos];
      chunks := chunks + [data];
    }
  }

  /** generate_full: the chunks together are the file. */
  method SendFull(f: File) returns (chunks: seq<seq<byte>>)
    requires f.pos == 0
    modifies f
    ensures Concat(chunks) == f.data
    ensures GoodChunks(chunks)
  {
    chunks := [];
    while true
      invariant f.pos <= |f.data|
      invariant Concat(chunks) == f.data[..f.pos]
      invariant GoodChunks(chunks)
      decreases |f.data| - f.pos
    {
      var from := f.pos;
      var chunk := f.Read(CHUNK);
      if chunk == [] {
        break;
      }
      ConcatOneMore(chunks, chunk);
      assert f.data[..from] + f.data[from..f.pos] == f.data[..f.pos];
      chunks := chunks + [chunk];
    }
  }

  /** The whole handler: what is sent is what the headers announce. */
  method StreamLocalFile(f: File, header: Option<string>) returns (answer: Answer, chunks: seq<seq<byte>>)
    requires f.pos == 0
    modifies f
    ensures answer == AnswerTo(header, |f.data|)
    ensures GoodChunks(chunks) && forall i | 0 <= i < |chunks| :: |chunks[i]| <= 65536
    ensures match answer
            case Full(length) => Concat(chunks) == f.data && |Concat(chunks)| == length
            case Partial(start, end, length) =>
              start <= end < |f.data| && Concat(chunks) == f.data[start..end + 1] && |Concat(chunks)| == length
            case NotSatisfiable => chunks == []
  {
    answer := AnswerTo(header, |f.data|);
    AcceptedRangeIsInsideTheFile(header, |f.data|);
    match answer {
      case Full(_) => chunks := SendFull(f);
      case Partial(start, end, _) => chunks := SendRange(f, start, end);
      case NotSatisfiable => chunks := [];
    }
  }
}
