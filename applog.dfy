/**
 * The append-only log line of `appendLog/appendLog.go`: six fields joined by single spaces, the
 * last of which, the content, runs to the end of the line and may itself hold spaces. The date is
 * written and read in the RFC 3339 layout (section 5.6 of RFC 3339) by Go's `time` package; that
 * formatter and that parser are parameters here.
 */
module AppendLog {
  import opened Wrappers
  import opened Strings
  import opened Tasks
  import opened Uuid

  /** `LogEntry`; `kind` is the field the source calls `Type`. */
  datatype LogEntry = LogEntry(id: Uuid, kind: string, date: Date, hostname: string, source: string, content: string)

  datatype LogError = BadFormat | BadId | BadDate

  /** The six fields of the line for an entry, the id in its long form and the date formatted. */
  function Fields(e: LogEntry, format: Date -> string): (r: seq<string>)
    ensures |r| == 6
  {
    [LongEncodeUUID(e.id), e.kind, format(e.date), e.hostname, e.source, e.content]
  }

  /** `Encode`: the six fields, each followed by a single space but the last. */
  function Encode(e: LogEntry, format: Date -> string): string {
    Join(Fields(e, format), ' ')
  }

  /**
   * The reading of the first field by `uuid.FromString`, for the canonical 36-character text.
   * Texts of any other length are rejected here.
   */
  function ParseId(s: string): (r: Option<Uuid>)
    ensures r.Some? ==> |s| == 36 && Canonical(s)
  {
    if |s| == 36 then ParseCanonical(s) else None
  }

  /**
   * `Decode`: split at the first five spaces into six parts, read the id from the first and the
   * date from the third, and take the rest as they are.
   */
  function Decode(s: string, parse: string -> Option<Date>): (r: Result<LogEntry, LogError>)
    ensures r.Ok? ==> Count(s, ' ') >= 5
  {
    var parts := SplitN(s, ' ', 6);
    SplitNCount(s, ' ', 6);
    if |parts| != 6 then Err(BadFormat)
    else
      match ParseId(parts[0])
      case None => Err(BadId)
      case Some(id) =>
        match parse(parts[2])
        case None => Err(BadDate)
        case Some(date) => Ok(LogEntry(id, parts[1], date, parts[3], parts[4], parts[5]))
  }

  /**
   * A line whose first five fields hold no space is decoded field by field: the id and the date
   * are read, everything after the fifth space is the content, and a field that does not read is
   * reported as such.
   */
  lemma DecodeFields(idText: string, kind: string, dateText: string, hostname: string, source: string, content: string,
                     parse: string -> Option<Date>)
    requires Free(idText, ' ') && Free(kind, ' ') && Free(dateText, ' ') && Free(hostname, ' ') && Free(source, ' ')
    ensures var r := Decode(Join([idText, kind, dateText, hostname, source, content], ' '), parse);
      && (ParseId(idText).None? ==> r == Err(BadId))
      && (ParseId(idText).Some? && parse(dateText).None? ==> r == Err(BadDate))
      && (ParseId(idText).Some? && parse(dateText).Some? ==>
            r == Ok(LogEntry(ParseId(idText).value, kind, parse(dateText).value, hostname, source, content)))
  {
    SplitNOfJoin([idText, kind, dateText, hostname, source, content], ' ');
  }

  /** Decoding fails on the format exactly when the line has fewer than five spaces. */
  lemma DecodeFormatError(s: string, parse: string -> Option<Date>)
    ensures Decode(s, parse) == Err(BadFormat) <==> Count(s, ' ') < 5
  {
    SplitNCount(s, ' ', 6);
  }

  /** A line with five spaces or more has the shape `DecodeFields` reads: five space-free fields, then the rest. */
  lemma LineFields(s: string)
    requires Count(s, ' ') >= 5
    ensures var p := SplitN(s, ' ', 6);
      && |p| == 6
      && (forall i :: 0 <= i < 5 ==> Free(p[i], ' '))
      && s == Join(p, ' ')
  {
    SplitNCount(s, ' ', 6);
    SplitNParts(s, ' ', 6);
    JoinOfSplitN(s, ' ', 6);
  }

  /** The long form of a UUID holds no space. */
  lemma LongFormHasNoSpace(u: Uuid)
    ensures Free(LongEncodeUUID(u), ' ')
  {
    var s := LongEncodeUUID(u);
    forall k | 0 <= k < 36 ensures s[k] != ' ' {
      assert s[k] == LongChar(u, k);
    }
  }

  /**
   * Decoding an encoded entry gives it back, provided the type, the formatted date, the host and
   * the source hold no space and the date parser reads the formatter's text back.
   */
  lemma DecodeOfEncode(e: LogEntry, format: Date -> string, parse: string -> Option<Date>)
    requires Free(e.kind, ' ') && Free(format(e.date), ' ') && Free(e.hostname, ' ') && Free(e.source, ' ')
    requires parse(format(e.date)) == Some(e.date)
    ensures Decode(Encode(e, format), parse) == Ok(e)
  {
    LongFormHasNoSpace(e.id);
    ParseCanonicalOfLong(e.id);
    DecodeFields(LongEncodeUUID(e.id), e.kind, format(e.date), e.hostname, e.source, e.content, parse);
    assert Fields(e, format) == [LongEncodeUUID(e.id), e.kind, format(e.date), e.hostname, e.source, e.content];
  }

  // ---------------------------------------------------------------------------------------------
  // The test vector of `appendLog/appendLog_test.go`

  const TestIdText: string := "019336d6-286a-7faf-82e2-282dc8fe40a4"
  const TestId: Uuid := [0x01, 0x93, 0x36, 0xd6, 0x28, 0x6a, 0x7f, 0xaf, 0x82, 0xe2, 0x28, 0x2d, 0xc8, 0xfe, 0x40, 0xa4]
  const TestDateText: string := "2023-05-15T12:34:56Z"
  /** The line of both tests, written field by field. */
  const TestLine: string :=
    TestIdText + " " + ("INFO" + " " + (TestDateText + " " + ("example.com" + " " + ("app.go" + " " + "Test message"))))

  lemma TestIdDigits1()
    ensures forall k :: 0 <= k < 8 ==> LongChar(TestId, k) == TestIdText[k]
  {
  }

  lemma TestIdDigits2()
    ensures forall k :: 8 <= k < 15 ==> LongChar(TestId, k) == TestIdText[k]
  {
  }

  lemma TestIdDigits3()
    ensures forall k :: 15 <= k < 22 ==> LongChar(TestId, k) == TestIdText[k]
  {
  }

  lemma TestIdDigits4()
    ensures forall k :: 22 <= k < 29 ==> LongChar(TestId, k) == TestIdText[k]
  {
  }

  lemma TestIdDigits5()
    ensures forall k :: 29 <= k < 36 ==> LongChar(TestId, k) == TestIdText[k]
  {
  }

  /** The id of the tests is the long form of its bytes, and reads back as them. */
  lemma TestIdForms()
    ensures LongEncodeUUID(TestId) == TestIdText
    ensures ParseId(TestIdText) == Some(TestId)
  {
    TestIdDigits1();
    TestIdDigits2();
    TestIdDigits3();
    TestIdDigits4();
    TestIdDigits5();
    var r := LongEncodeUUID(TestId);
    assert forall k :: 0 <= k < 36 ==> r[k] == LongChar(TestId, k);
    ParseCanonicalOfLong(TestId);
  }

  lemma TestLineFields()
    ensures TestLine == Join([TestIdText, "INFO", TestDateText, "example.com", "app.go", "Test message"], ' ')
  {
    var p := [TestIdText, "INFO", TestDateText, "example.com", "app.go", "Test message"];
    assert " " == [' '];
    assert Join(p[4..], ' ') == "app.go" + " " + "Test message" by { assert p[4..][1..] == p[5..]; }
    assert Join(p[3..], ' ') == "example.com" + " " + Join(p[4..], ' ') by { assert p[3..][1..] == p[4..]; }
    assert Join(p[2..], ' ') == TestDateText + " " + Join(p[3..], ' ') by { assert p[2..][1..] == p[3..]; }
    assert Join(p[1..], ' ') == "INFO" + " " + Join(p[2..], ' ') by { assert p[1..][1..] == p[2..]; }
  }

  lemma TestFieldsHaveNoSpace()
    ensures Free(TestIdText, ' ') && Free("INFO", ' ') && Free(TestDateText, ' ') && Free("example.com", ' ') && Free("app.go", ' ')
  {
  }

  /** The decoding test: the line reads back as the entry with the expected fields. */
  lemma DecodeTestVector(parse: string -> Option<Date>, d: Date)
    requires parse(TestDateText) == Some(d)
    ensures Decode(TestLine, parse) == Ok(LogEntry(TestId, "INFO", d, "example.com", "app.go", "Test message"))
  {
    TestLineFields();
    TestFieldsHaveNoSpace();
    TestIdForms();
    DecodeFields(TestIdText, "INFO", TestDateText, "example.com", "app.go", "Test message", parse);
  }

  /** The encoding test: the entry is written as the expected line. */
  lemma EncodeTestVector(format: Date -> string, d: Date)
    requires format(d) == TestDateText
    ensures Encode(LogEntry(TestId, "INFO", d, "example.com", "app.go", "Test message"), format) == TestLine
  {
    TestLineFields();
    TestIdForms();
    var e := LogEntry(TestId, "INFO", d, "example.com", "app.go", "Test message");
    assert Fields(e, format) == [TestIdText, "INFO", TestDateText, "example.com", "app.go", "Test message"];
  }
}
