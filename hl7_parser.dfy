/** The HL7 v2.5 parser of the agent: a message is cleaned of the MLLP framing characters, split into
    segments on line feeds and into fields on `|`, and the MSH (section 2.15.9), PID (section 3.4.2),
    OBR (section 4.5.3) and OBX (section 7.4.2) segments fill in one result. */
module Hl7Parser {
  import opened Wrappers
  import opened Text
  import opened Clock

  // ---------------------------------------------------------------- abnormal flags (HL7 table 0078)

  datatype Status = Normal | Alto | Bajo | Critico

  /** `_interpret_flag`: the flag is upper-cased and stripped, then looked up. `HH` and `LL` are found by
      the high and low cases before the critical case is reached, so only `AA` is critical. */
  function InterpretFlag(flag: string): (r: Status)
    ensures var f := Strip(Upper(flag));
      && (r == Alto <==> f == "H" || f == "HH" || f == ">")
      && (r == Bajo <==> f == "L" || f == "LL" || f == "<")
      && (r == Critico <==> f == "AA")
      && (r == Normal <==> f !in {"H", "HH", ">", "L", "LL", "<", "AA"})
  {
    var f := Strip(Upper(flag));
    if f == "N" || f == "" then Normal
    else if f == "H" || f == "HH" || f == ">" then Alto
    else if f == "L" || f == "LL" || f == "<" then Bajo
    else if f == "HH" || f == "LL" || f == "AA" then Critico
    else Normal
  }

  /** A flag already upper-case with no surrounding space is looked up as it stands. */
  lemma NormalisedFlag(flag: string, f: string)
    requires Upper(flag) == f && f != [] && !IsSpace(f[0]) && !IsSpace(f[|f| - 1])
    ensures Strip(Upper(flag)) == f
  {
    StripUnchanged(f);
  }

  /** The critically high flag of table 0078, in either case, comes out as plain high. */
  lemma CriticallyHighIsHigh()
    ensures InterpretFlag("hh") == Alto
  {
    assert Upper("hh") == "HH";
    NormalisedFlag("hh", "HH");
  }

  /** The critically low flag of table 0078, in either case, comes out as plain low. */
  lemma CriticallyLowIsLow()
    ensures InterpretFlag("ll") == Bajo
  {
    assert Upper("ll") == "LL";
    NormalisedFlag("ll", "LL");
  }

  /** The panic flag is critical in either case. */
  lemma PanicIsCritical()
    ensures InterpretFlag("aa") == Critico
  {
    assert Upper("aa") == "AA";
    NormalisedFlag("aa", "AA");
  }

  // ---------------------------------------------------------------- fields

  /** `fields[i] if len(fields) > i else ''`. */
  function FieldOr(fields: seq<string>, i: nat): (r: string)
    ensures |fields| > i ==> r == fields[i]
    ensures |fields| <= i ==> r == ""
  {
    if |fields| > i then fields[i] else ""
  }

  /** `_parse_patient_id`: the first `^` component of PID-3, when the segment has that field. */
  function PatientId(fields: seq<string>): (r: Option<string>)
    ensures |fields| <= 3 <==> r == None
    ensures |fields| > 3 ==> r == Some(Split(fields[3], '^')[0])
  {
    if |fields| > 3 then Some(Split(fields[3], '^')[0]) else None
  }

  /** `_parse_patient_name`: PID-5 written as "given family" when it has at least two `^` components,
      as it stands when it has none. */
  function PatientName(fields: seq<string>): (r: Option<string>)
    ensures |fields| <= 5 <==> r == None
  {
    if |fields| > 5 then
      var components := Split(fields[5], '^');
      if |components| >= 2 then Some(components[1] + " " + components[0]) else Some(components[0])
    else None
  }

  /** A PID-5 without `^` is taken whole. */
  lemma PatientNameWhole(fields: seq<string>)
    requires |fields| > 5 && '^' !in fields[5]
    ensures PatientName(fields) == Some(fields[5])
  {
    SplitNoSeparator(fields[5], '^');
  }

  /** A PID-5 of the form `family^given^...` is turned round into "given family". */
  lemma PatientNameSwapped(fields: seq<string>, parts: seq<string>)
    requires |fields| > 5 && |parts| >= 2 && fields[5] == Join(parts, '^')
    requires forall i :: 0 <= i < |parts| ==> '^' !in parts[i]
    ensures PatientName(fields) == Some(parts[1] + " " + parts[0])
  {
    SplitJoin(parts, '^');
  }

  /** One test result. */
  datatype ObxResult = ObxResult(testCode: string, testName: string, value: string, units: string,
                                 referenceRange: string, status: Status)

  /** `_parse_obx` for a segment with at least six fields: OBX-3's first component is the code and its
      second the name (the code again when there is none); OBX-5 is the value, OBX-6, OBX-7 and OBX-8
      the units, range and flag, empty when missing. */
  function ObxOf(fields: seq<string>): (r: ObxResult)
    requires |fields| >= 6
    ensures var identifier := Split(fields[3], '^');
      && r.testCode == identifier[0]
      && r.testName == (if |identifier| > 1 then identifier[1] else identifier[0])
      && r.value == fields[5]
      && r.units == FieldOr(fields, 6) && r.referenceRange == FieldOr(fields, 7)
      && r.status == InterpretFlag(FieldOr(fields, 8))
  {
    var identifier := Split(fields[3], '^');
    var testCode := identifier[0];
    var testName := if |identifier| > 1 then identifier[1] else testCode;
    ObxResult(testCode, testName, fields[5], FieldOr(fields, 6), FieldOr(fields, 7),
              InterpretFlag(FieldOr(fields, 8)))
  }

  /** `_parse_obx`: nothing for a segment with fewer than six fields. */
  function ParseObx(fields: seq<string>): (r: Option<ObxResult>)
    ensures |fields| < 6 <==> r == None
    ensures |fields| >= 6 ==> r == Some(ObxOf(fields))
  {
    if |fields| < 6 then None else Some(ObxOf(fields))
  }

  /** An OBX-3 without a name component names the test by its code. */
  lemma TestNameFallsBackToCode(fields: seq<string>)
    requires |fields| >= 6 && '^' !in fields[3]
    ensures ObxOf(fields).testName == fields[3] && ObxOf(fields).testCode == fields[3]
  {
    SplitNoSeparator(fields[3], '^');
  }

  // ---------------------------------------------------------------- timestamps

  /** The six numbers of a compact timestamp. */
  function Compact(y: nat, mo: nat, d: nat, h: nat, mi: nat, s: nat): string {
    ZeroPad(y, 4) + ZeroPad(mo, 2) + ZeroPad(d, 2) + ZeroPad(h, 2) + ZeroPad(mi, 2) + ZeroPad(s, 2)
  }

  /** `timestamp_str[:14].ljust(14, '0')`: the first 14 characters, padded with `0` to 14. */
  function Padded(s: string): (r: string)
    ensures |r| == 14
    ensures |s| >= 14 ==> r == s[..14]
    ensures |s| < 14 ==> r == s + Repeat('0', 14 - |s|)
  {
    LJust(if |s| > 14 then s[..14] else s, 14, '0')
  }

  /** The six fields of a padded timestamp, each read with `int()`, as a `datetime`; the clock reading
      `now` where `int()` or `datetime()` raises. */
  function ReadFields(t: string, now: DateTime): (r: string)
    requires |t| == 14 && Valid(now)
  {
    var year, month, day := PyInt(t[0..4]), PyInt(t[4..6]), PyInt(t[6..8]);
    var hour, minute, second := PyInt(t[8..10]), PyInt(t[10..12]), PyInt(t[12..14]);
    if year.Some? && month.Some? && day.Some? && hour.Some? && minute.Some? && second.Some? then
      var dt := DateTime(year.value, month.value, day.value, hour.value, minute.value, second.value, 0);
      if Valid(dt) then IsoFormat(dt) else IsoFormat(now)
    else IsoFormat(now)
  }

  /** `_parse_timestamp`: a string shorter than 8 characters gives the clock reading `now`; otherwise its
      first 14 characters, padded with `0` to 14, are read as year, month, day, hour, minute and second,
      and a value `int()` or `datetime()` rejects gives `now` as well. */
  function ParseTimestamp(s: string, now: DateTime): (r: string)
    requires Valid(now)
    ensures |s| < 8 ==> r == IsoFormat(now)
  {
    if |s| < 8 then IsoFormat(now) else ReadFields(Padded(s), now)
  }

  lemma CompactParts(y: nat, mo: nat, d: nat, h: nat, mi: nat, s: nat)
    requires y < 10000 && mo < 100 && d < 100 && h < 100 && mi < 100 && s < 100
    ensures var c := Compact(y, mo, d, h, mi, s);
      && |c| == 14
      && c[0..4] == ZeroPad(y, 4) && c[4..6] == ZeroPad(mo, 2) && c[6..8] == ZeroPad(d, 2)
      && c[8..10] == ZeroPad(h, 2) && c[10..12] == ZeroPad(mi, 2) && c[12..14] == ZeroPad(s, 2)
  {
    ZeroPadWidth(y, 4);
    ZeroPadWidth(mo, 2);
    ZeroPadWidth(d, 2);
    ZeroPadWidth(h, 2);
    ZeroPadWidth(mi, 2);
    ZeroPadWidth(s, 2);
  }

  /** A compact `YYYYMMDDHHMMSS` timestamp is read back as the date and time it writes, when that is a
      real date and time, and as the clock reading otherwise. */
  lemma ParseCompact(y: nat, mo: nat, d: nat, h: nat, mi: nat, s: nat, now: DateTime)
    requires Valid(now)
    requires y < 10000 && mo < 100 && d < 100 && h < 100 && mi < 100 && s < 100
    ensures var dt := DateTime(y, mo, d, h, mi, s, 0);
      ParseTimestamp(Compact(y, mo, d, h, mi, s), now) == if Valid(dt) then IsoFormat(dt) else IsoFormat(now)
  {
    var c := Compact(y, mo, d, h, mi, s);
    CompactParts(y, mo, d, h, mi, s);
    assert Padded(c) == c;
    PyIntZeroPad(y, 4);
    PyIntZeroPad(mo, 2);
    PyIntZeroPad(d, 2);
    PyIntZeroPad(h, 2);
    PyIntZeroPad(mi, 2);
    PyIntZeroPad(s, 2);
  }

  /** A date-only `YYYYMMDD` timestamp is padded to midnight of that day. */
  lemma ParseDateOnly(y: nat, mo: nat, d: nat, now: DateTime)
    requires Valid(now) && y < 10000 && mo < 100 && d < 100
    ensures var dt := DateTime(y, mo, d, 0, 0, 0, 0);
      ParseTimestamp(ZeroPad(y, 4) + ZeroPad(mo, 2) + ZeroPad(d, 2), now)
        == if Valid(dt) then IsoFormat(dt) else IsoFormat(now)
  {
    var s := ZeroPad(y, 4) + ZeroPad(mo, 2) + ZeroPad(d, 2);
    ZeroPadWidth(y, 4);
    ZeroPadWidth(mo, 2);
    ZeroPadWidth(d, 2);
    ZeroPadWidth(0, 2);
    assert ZeroPad(0, 2) == "00";
    assert Padded(s) == Compact(y, mo, d, 0, 0, 0);
    ParseCompact(y, mo, d, 0, 0, 0, now);
  }

  /** A `YYYYMMDDHH` timestamp is padded to the start of that hour. */
  lemma ParseToHour(y: nat, mo: nat, d: nat, h: nat, now: DateTime)
    requires Valid(now) && y < 10000 && mo < 100 && d < 100 && h < 100
    ensures var dt := DateTime(y, mo, d, h, 0, 0, 0);
      ParseTimestamp(ZeroPad(y, 4) + ZeroPad(mo, 2) + ZeroPad(d, 2) + ZeroPad(h, 2), now)
        == if Valid(dt) then IsoFormat(dt) else IsoFormat(now)
  {
    var s := ZeroPad(y, 4) + ZeroPad(mo, 2) + ZeroPad(d, 2) + ZeroPad(h, 2);
    ZeroPadWidth(y, 4);
    ZeroPadWidth(mo, 2);
    ZeroPadWidth(d, 2);
    ZeroPadWidth(h, 2);
    assert ZeroPad(0, 2) == "00";
    assert Padded(s) == Compact(y, mo, d, h, 0, 0);
    ParseCompact(y, mo, d, h, 0, 0, now);
  }

  /** A `YYYYMMDDHHMM` timestamp is padded to the start of that minute. */
  lemma ParseToMinute(y: nat, mo: nat, d: nat, h: nat, mi: nat, now: DateTime)
    requires Valid(now) && y < 10000 && mo < 100 && d < 100 && h < 100 && mi < 100
    ensures var dt := DateTime(y, mo, d, h, mi, 0, 0);
      ParseTimestamp(ZeroPad(y, 4) + ZeroPad(mo, 2) + ZeroPad(d, 2) + ZeroPad(h, 2) + ZeroPad(mi, 2), now)
        == if Valid(dt) then IsoFormat(dt) else IsoFormat(now)
  {
    var s := ZeroPad(y, 4) + ZeroPad(mo, 2) + ZeroPad(d, 2) + ZeroPad(h, 2) + ZeroPad(mi, 2);
    ZeroPadWidth(y, 4);
    ZeroPadWidth(mo, 2);
    ZeroPadWidth(d, 2);
    ZeroPadWidth(h, 2);
    ZeroPadWidth(mi, 2);
    assert ZeroPad(0, 2) == "00";
    assert Padded(s) == Compact(y, mo, d, h, mi, 0);
    ParseCompact(y, mo, d, h, mi, 0, now);
  }

  /** Only the first 14 characters are read: a time-zone offset or fraction after the seconds is
      ignored. */
  lemma ParseTimestampTruncates(s: string, rest: string, now: DateTime)
    requires Valid(now) && |s| == 14
    ensures ParseTimestamp(s + rest, now) == ParseTimestamp(s, now)
  {
    assert (s + rest)[..14] == s;
    assert Padded(s + rest) == Padded(s);
  }

  /** A value of 8 to 13 characters is read as if `0` were appended up to 14 characters. */
  lemma ParseTimestampPads(s: string, now: DateTime)
    requires Valid(now) && 8 <= |s| < 14
    ensures ParseTimestamp(s, now) == ParseTimestamp(s + Repeat('0', 14 - |s|), now)
  {
    assert Padded(s + Repeat('0', 14 - |s|)) == Padded(s);
  }

  /** A compact timestamp followed by anything, such as the `+0500` offset HL7 allows, reads as the
      compact timestamp alone. */
  lemma ParseCompactWithSuffix(y: nat, mo: nat, d: nat, h: nat, mi: nat, s: nat, rest: string, now: DateTime)
    requires Valid(now)
    requires y < 10000 && mo < 100 && d < 100 && h < 100 && mi < 100 && s < 100
    ensures var dt := DateTime(y, mo, d, h, mi, s, 0);
      ParseTimestamp(Compact(y, mo, d, h, mi, s) + rest, now) == if Valid(dt) then IsoFormat(dt) else IsoFormat(now)
  {
    CompactParts(y, mo, d, h, mi, s);
    ParseTimestampTruncates(Compact(y, mo, d, h, mi, s), rest, now);
    ParseCompact(y, mo, d, h, mi, s, now);
  }

  // ---------------------------------------------------------------- segments and the parse loop

  /** The message with the 0x0B, 0x1C and 0x0D characters removed. */
  function Clean(message: string): (r: string)
    ensures '\U{0B}' !in r && '\U{1C}' !in r && '\r' !in r
  {
    var a := Without(message, '\U{0B}');
    var b := Without(a, '\U{1C}');
    assert '\U{0B}' !in b by {
      assert multiset(b)['\U{0B}'] == multiset(a)['\U{0B}'];
    }
    var c := Without(b, '\r');
    assert '\U{0B}' !in c && '\U{1C}' !in c by {
      assert multiset(c)['\U{0B}'] == multiset(b)['\U{0B}'];
      assert multiset(c)['\U{1C}'] == multiset(b)['\U{1C}'];
    }
    c
  }

  /** The lines that are not blank, in order. */
  function NonBlank(lines: seq<string>): (r: seq<string>)
    ensures forall i :: 0 <= i < |r| ==> !IsBlank(r[i])
    ensures |r| <= |lines|
  {
    if lines == [] then []
    else (if IsBlank(lines[0]) then [] else [lines[0]]) + NonBlank(lines[1..])
  }

  /** `[line for line in message.split('\n') if line.strip()]` on the cleaned message. */
  function Segments(message: string): (r: seq<string>)
    ensures forall i :: 0 <= i < |r| ==> !IsBlank(r[i]) && '\n' !in r[i] && '\r' !in r[i]
  {
    var lines := Split(Clean(message), '\n');
    var r := NonBlank(lines);
    assert forall i :: 0 <= i < |r| ==> '\n' !in r[i] && '\r' !in r[i] by {
      NonBlankFrom(lines);
      SplitPiecesFrom(Clean(message), '\n', '\r');
      forall i | 0 <= i < |r| ensures '\n' !in r[i] && '\r' !in r[i] {
        assert r[i] in lines;
      }
    }
    r
  }

  /** A line is kept exactly when it is one of the lines and not blank. */
  lemma {:induction false} NonBlankFrom(lines: seq<string>)
    ensures forall l :: l in NonBlank(lines) <==> l in lines && !IsBlank(l)
  {
    if lines != [] {
      NonBlankFrom(lines[1..]);
      assert lines == [lines[0]] + lines[1..];
    }
  }

  /** The filter works line by line, so the kept lines stay in their order. */
  lemma {:induction false} NonBlankAppend(a: seq<string>, b: seq<string>)
    ensures NonBlank(a + b) == NonBlank(a) + NonBlank(b)
  {
    if a == [] {
      assert a + b == b;
    } else {
      assert (a + b)[0] == a[0];
      assert (a + b)[1..] == a[1..] + b;
      NonBlankAppend(a[1..], b);
    }
  }

  /** Lines none of which is blank are all kept. */
  lemma {:induction false} NonBlankAll(lines: seq<string>)
    requires forall i :: 0 <= i < |lines| ==> !IsBlank(lines[i])
    ensures NonBlank(lines) == lines
  {
    if lines != [] {
      NonBlankAll(lines[1..]);
    }
  }

  /** A line with no line break and no framing character. */
  predicate Plain(line: string) {
    '\n' !in line && '\r' !in line && '\U{0B}' !in line && '\U{1C}' !in line
  }

  /** Cleaning leaves a text without framing characters or carriage returns as it is. */
  lemma CleanPlain(text: string)
    requires '\r' !in text && '\U{0B}' !in text && '\U{1C}' !in text
    ensures Clean(text) == text
  {
    WithoutAbsent(text, '\U{0B}');
    WithoutAbsent(text, '\U{1C}');
    WithoutAbsent(text, '\r');
  }

  /** Cleaning an MLLP frame `0x0B text 0x1C 0x0D` gives the text back. */
  lemma CleanFramed(text: string)
    requires '\r' !in text && '\U{0B}' !in text && '\U{1C}' !in text
    ensures Clean(['\U{0B}'] + text + ['\U{1C}', '\r']) == text
  {
    StartByteRemoved(text);
    EndByteRemoved(text);
    CarriageReturnRemoved(text);
  }

  lemma StartByteRemoved(text: string)
    requires '\U{0B}' !in text
    ensures Without(['\U{0B}'] + text + ['\U{1C}', '\r'], '\U{0B}') == text + ['\U{1C}', '\r']
  {
    var tail := text + ['\U{1C}', '\r'];
    assert ['\U{0B}'] + text + ['\U{1C}', '\r'] == ['\U{0B}'] + tail;
    WithoutAppend(['\U{0B}'], tail, '\U{0B}');
    WithoutOne('\U{0B}', '\U{0B}');
    WithoutAbsent(tail, '\U{0B}');
  }

  lemma EndByteRemoved(text: string)
    requires '\U{1C}' !in text
    ensures Without(text + ['\U{1C}', '\r'], '\U{1C}') == text + ['\r']
  {
    WithoutAppend(text, ['\U{1C}', '\r'], '\U{1C}');
    WithoutAbsent(text, '\U{1C}');
    TrailerWithoutEndByte();
  }

  lemma TrailerWithoutEndByte()
    ensures Without(['\U{1C}', '\r'], '\U{1C}') == ['\r']
  {
    assert ['\U{1C}', '\r'] == ['\U{1C}'] + ['\r'];
    WithoutAppend(['\U{1C}'], ['\r'], '\U{1C}');
    WithoutOne('\U{1C}', '\U{1C}');
    WithoutOne('\r', '\U{1C}');
  }

  lemma CarriageReturnRemoved(text: string)
    requires '\r' !in text
    ensures Without(text + ['\r'], '\r') == text
  {
    WithoutAppend(text, ['\r'], '\r');
    WithoutOne('\r', '\r');
    WithoutAbsent(text, '\r');
  }

  /** Plain lines joined with line feeds come back as the segments, the blank ones dropped. */
  lemma SegmentsOfLines(lines: seq<string>)
    requires |lines| >= 1 && forall i :: 0 <= i < |lines| ==> Plain(lines[i])
    ensures Segments(Join(lines, '\n')) == NonBlank(lines)
  {
    var text := Join(lines, '\n');
    JoinFree(lines, '\n', '\r');
    JoinFree(lines, '\n', '\U{0B}');
    JoinFree(lines, '\n', '\U{1C}');
    CleanPlain(text);
    SplitJoin(lines, '\n');
  }

  /** Non-blank plain lines joined with line feeds and framed by MLLP are exactly the segments, in
      order. */
  lemma SegmentsOfFrame(lines: seq<string>)
    requires |lines| >= 1 && forall i :: 0 <= i < |lines| ==> Plain(lines[i]) && !IsBlank(lines[i])
    ensures Segments(['\U{0B}'] + Join(lines, '\n') + ['\U{1C}', '\r']) == lines
  {
    var text := Join(lines, '\n');
    JoinFree(lines, '\n', '\r');
    JoinFree(lines, '\n', '\U{0B}');
    JoinFree(lines, '\n', '\U{1C}');
    CleanFramed(text);
    SplitJoin(lines, '\n');
    NonBlankAll(lines);
  }

  /** A character absent from the string is absent from every piece of its split. */
  lemma {:induction false} SplitPiecesFrom(s: string, sep: char, c: char)
    requires c !in s
    ensures forall i :: 0 <= i < |Split(s, sep)| ==> c !in Split(s, sep)[i]
    decreases |s|
  {
    var k := IndexOfChar(s, sep);
    if k != -1 {
      NotInSlice(s, c, k + 1, |s|);
      SplitPiecesFrom(s[k + 1..], sep, c);
      NotInSlice(s, c, 0, k);
      forall i | 0 <= i < |Split(s, sep)| ensures c !in Split(s, sep)[i] {
        if i > 0 {
          assert Split(s, sep)[i] == Split(s[k + 1..], sep)[i - 1];
        }
      }
    }
  }

  lemma NotInSlice(s: string, c: char, a: nat, b: nat)
    requires c !in s && a <= b <= |s|
    ensures c !in s[a..b]
  {
    forall j | 0 <= j < b - a ensures s[a..b][j] != c {
      assert s[a..b][j] == s[a + j];
    }
  }

  /** A message whose segments are separated by carriage returns only is one segment. */
  lemma CarriageReturnsOnlyMakeOneSegment(message: string)
    requires '\n' !in message && !IsBlank(Clean(message))
    ensures Segments(message) == [Clean(message)]
  {
    var c := Clean(message);
    assert '\n' !in c by {
      WithoutKeeps(message, '\U{0B}', '\n');
      WithoutKeeps(Without(message, '\U{0B}'), '\U{1C}', '\n');
      WithoutKeeps(Without(Without(message, '\U{0B}'), '\U{1C}'), '\r', '\n');
    }
    SplitNoSeparator(c, '\n');
    assert NonBlank([c]) == [c] + NonBlank([]);
  }

  lemma WithoutKeeps(s: string, c: char, x: char)
    requires x != c && x !in s
    ensures x !in Without(s, c)
  {
    assert multiset(Without(s, c))[x] == multiset(s)[x];
  }

  /** The parse result. */
  datatype Parsed = Parsed(patientId: Option<string>, patientName: Option<string>, orderId: Option<string>,
                           testResults: seq<ObxResult>, timestamp: Option<string>)

  const Initial := Parsed(None, None, None, [], None)

  /** What a segment with the given fields does to the result. */
  function Apply(r: Parsed, fields: seq<string>, now: DateTime): Parsed
    requires Valid(now) && |fields| >= 1
  {
    var segmentType := fields[0];
    if segmentType == "MSH" then r.(timestamp := Some(ParseTimestamp(FieldOr(fields, 6), now)))
    else if segmentType == "PID" then r.(patientId := PatientId(fields), patientName := PatientName(fields))
    else if segmentType == "OBR" then r.(orderId := if |fields| > 2 then Some(fields[2]) else None)
    else if segmentType == "OBX" then
      match ParseObx(fields)
      case Some(x) => r.(testResults := r.testResults + [x])
      case None => r
    else r
  }

  /** What one segment does to the result: an empty segment is skipped. */
  function Step(r: Parsed, segment: string, now: DateTime): Parsed
    requires Valid(now)
  {
    if segment == "" then r else Apply(r, Split(segment, '|'), now)
  }

  /** The result after the given segments, processed in order. */
  function Fold(segments: seq<string>, now: DateTime): Parsed
    requires Valid(now)
  {
    if segments == [] then Initial
    else Step(Fold(segments[..|segments| - 1], now), segments[|segments| - 1], now)
  }

  lemma FoldNext(segments: seq<string>, i: nat, now: DateTime)
    requires Valid(now) && i < |segments|
    ensures Fold(segments[..i + 1], now) == Step(Fold(segments[..i], now), segments[i], now)
  {
    assert segments[..i + 1][..i] == segments[..i];
  }

  /** `HL7Parser.parse`: the loop over the segments, updating the result in place. */
  method Parse(message: string, now: DateTime) returns (result: Parsed)
    requires Valid(now)
    ensures result == Fold(Segments(message), now)
  {
    var segments := Segments(message);
    result := Initial;
    var i := 0;
    while i < |segments|
      invariant 0 <= i <= |segments|
      invariant result == Fold(segments[..i], now)
    {
      var segment := segments[i];
      FoldNext(segments, i, now);
      if segment != "" {
        var fields := Split(segment, '|');
        var segmentType := fields[0];
        if segmentType == "MSH" {
          result := result.(timestamp := Some(ParseTimestamp(if |fields| > 6 then fields[6] else "", now)));
        } else if segmentType == "PID" {
          result := result.(patientId := PatientId(fields), patientName := PatientName(fields));
        } else if segmentType == "OBR" {
          result := result.(orderId := if |fields| > 2 then Some(fields[2]) else None);
        } else if segmentType == "OBX" {
          var testResult := ParseObx(fields);
          if testResult.Some? {
            result := result.(testResults := result.testResults + [testResult.value]);
          }
        }
      }
      i := i + 1;
    }
    assert segments[..i] == segments;
  }

  // ---------------------------------------------------------------- what the parse result holds

  function SegmentType(segment: string): string {
    Split(segment, '|')[0]
  }

  /** The fields of the OBX segments with at least six fields, in segment order. */
  function ObxSegments(segments: seq<string>): (r: seq<seq<string>>)
    ensures forall i :: 0 <= i < |r| ==> |r[i]| >= 6
  {
    if segments == [] then []
    else
      var last := segments[|segments| - 1];
      var fields := Split(last, '|');
      ObxSegments(segments[..|segments| - 1])
      + (if last != "" && fields[0] == "OBX" && |fields| >= 6 then [fields] else [])
  }

  /** The fields of the last segment of the given type, if there is one. */
  function LastOfType(segments: seq<string>, segmentType: string): Option<seq<string>> {
    if segments == [] then None
    else
      var last := segments[|segments| - 1];
      if last != "" && SegmentType(last) == segmentType then Some(Split(last, '|'))
      else LastOfType(segments[..|segments| - 1], segmentType)
  }

  /** The test results are exactly one entry per OBX segment with at least six fields, in order. */
  lemma {:induction false} TestResultsFromObx(segments: seq<string>, now: DateTime)
    requires Valid(now)
    ensures var obx := ObxSegments(segments);
      && |Fold(segments, now).testResults| == |obx|
      && forall i :: 0 <= i < |obx| ==> Fold(segments, now).testResults[i] == ObxOf(obx[i])
  {
    if segments != [] {
      var init, last := segments[..|segments| - 1], segments[|segments| - 1];
      TestResultsFromObx(init, now);
      StepTestResults(Fold(init, now), last, now);
    }
  }

  lemma StepTestResults(r: Parsed, segment: string, now: DateTime)
    requires Valid(now)
    ensures var fields := Split(segment, '|');
      Step(r, segment, now).testResults
        == r.testResults + (if segment != "" && fields[0] == "OBX" && |fields| >= 6 then [ObxOf(fields)] else [])
  {
    if segment != "" {
      ApplyTestResults(r, Split(segment, '|'), now);
    } else {
      assert r.testResults + [] == r.testResults;
    }
  }

  lemma ApplyTestResults(r: Parsed, fields: seq<string>, now: DateTime)
    requires Valid(now) && |fields| >= 1
    ensures Apply(r, fields, now).testResults
      == r.testResults + (if fields[0] == "OBX" && |fields| >= 6 then [ObxOf(fields)] else [])
  {
    var next := Apply(r, fields, now);
    if fields[0] == "MSH" {
      assert next.testResults == r.testResults;
    } else if fields[0] == "PID" {
      assert next.testResults == r.testResults;
    } else if fields[0] == "OBR" {
      assert next.testResults == r.testResults;
    } else if fields[0] == "OBX" {
      assert next.testResults == r.testResults + (if |fields| >= 6 then [ObxOf(fields)] else []);
    } else {
      assert next.testResults == r.testResults;
    }
    if fields[0] != "OBX" || |fields| < 6 {
      assert r.testResults + [] == r.testResults;
    }
  }

  /** A later PID segment overrides an earlier one: the patient comes from the last PID segment, and is
      missing when there is none. */
  lemma {:induction false} PatientFromLastPid(segments: seq<string>, now: DateTime)
    requires Valid(now)
    ensures var r := Fold(segments, now);
      && r.patientId == (match LastOfType(segments, "PID") case None => None case Some(f) => PatientId(f))
      && r.patientName == (match LastOfType(segments, "PID") case None => None case Some(f) => PatientName(f))
  {
    if segments != [] {
      PatientFromLastPid(segments[..|segments| - 1], now);
    }
  }

  /** The order number is OBR-2 of the last OBR segment. */
  lemma {:induction false} OrderFromLastObr(segments: seq<string>, now: DateTime)
    requires Valid(now)
    ensures Fold(segments, now).orderId
      == match LastOfType(segments, "OBR") case None => None case Some(f) => if |f| > 2 then Some(f[2]) else None
  {
    if segments != [] {
      OrderFromLastObr(segments[..|segments| - 1], now);
    }
  }

  /** The timestamp is read from field 6 of the last MSH segment. */
  lemma {:induction false} TimestampFromLastMsh(segments: seq<string>, now: DateTime)
    requires Valid(now)
    ensures Fold(segments, now).timestamp
      == match LastOfType(segments, "MSH") case None => None case Some(f) => Some(ParseTimestamp(FieldOr(f, 6), now))
  {
    if segments != [] {
      TimestampFromLastMsh(segments[..|segments| - 1], now);
    }
  }

  /** Segments of any other type leave the result as it was. */
  lemma OtherSegmentsIgnored(r: Parsed, segment: string, now: DateTime)
    requires Valid(now)
    requires SegmentType(segment) !in {"MSH", "PID", "OBR", "OBX"}
    ensures Step(r, segment, now) == r
  {
  }
}
