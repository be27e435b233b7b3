/**
 * The log block decoder: one free-text block of a support-system log file turned
 * into the twelve-field row that is inserted into the bronze `logs` table, or
 * rejected with `None`. Every failure the decoder can meet (a short block, a line
 * that does not match, an impossible date, a response time `int()` refuses for its
 * length, a CPU token `float()` refuses) is a `None` here, which is what the
 * `except` clause turns them into.
 */
module LogParser {
  import opened Wrappers
  import opened Text
  import opened LogPatterns
  import Calendar

  /**
   * One accepted block, field for field in insertion order. `cpuPercent` is the
   * token `float()` accepted; the floating-point value itself is not modelled.
   */
  datatype LogRow = LogRow(
    timestamp: Calendar.DateTime,
    logLevel: string,
    service: string,
    ticketId: string,
    sessionId: string,
    ip: string,
    responseTimeMs: int,
    cpuPercent: string,
    eventType: string,
    error: string,
    userAgent: Option<string>,
    traceId: Option<string>)

  /** The stripped, non-blank lines of a block, in order. */
  function BlockLines(block: string): (lines: seq<string>)
    ensures forall k :: 0 <= k < |lines| ==> lines[k] != [] && Trimmed(lines[k]) && '\n' !in lines[k]
  {
    var parts := SplitOn(Strip(block), "\n");
    SplitOnPartsFree(Strip(block), "\n");
    forall k | 0 <= k < |parts|
      ensures '\n' !in parts[k]
    {
      FreeHasNo(parts[k], '\n');
    }
    StrippedNonBlankHasNo(parts, '\n');
    StrippedNonBlank(parts)
  }

  /** A text in which the one-character pattern `[c]` occurs nowhere holds no `c`. */
  lemma FreeHasNo(s: string, c: char)
    requires Free(s, [c])
    ensures c !in s
  {
    forall k | 0 <= k < |s|
      ensures s[k] != c
    {
      assert !OccursAt(s, [c], k);
      assert s[k..k + 1] == [s[k]];
    }
  }

  lemma SliceHasNo(s: string, i: nat, j: nat, c: char)
    requires i <= j <= |s| && c !in s
    ensures c !in s[i..j]
  {
    forall k | 0 <= k < j - i
      ensures s[i..j][k] != c
    {
      assert s[i..j][k] == s[i + k];
    }
  }

  /** Stripping keeps a character out if it was out. */
  lemma StripHasNo(s: string, c: char)
    requires c !in s
    ensures c !in Strip(s)
  {
    var t := TrimLeft(s);
    var r := TrimRight(t);
    assert r == Strip(s);
    assert t == s[|s| - |t|..|s|];
    SliceHasNo(s, |s| - |t|, |s|, c);
    SliceHasNo(t, 0, |r|, c);
  }

  /** The kept lines hold no `c` when no part holds one. */
  lemma {:induction false} StrippedNonBlankHasNo(parts: seq<string>, c: char)
    requires forall k :: 0 <= k < |parts| ==> c !in parts[k]
    decreases |parts|
    ensures forall k :: 0 <= k < |StrippedNonBlank(parts)| ==> c !in StrippedNonBlank(parts)[k]
  {
    if parts != [] {
      var init := parts[..|parts| - 1];
      StrippedNonBlankHasNo(init, c);
      StripHasNo(parts[|parts| - 1], c);
    }
  }

  /** The value of a `-?\d+` group: the minus sign is kept. */
  function SignedValue(t: string): int
    requires SignedDigitText(t)
  {
    if t[0] == '-' then -(DigitsValue(t[1..]) as int) else DigitsValue(t)
  }

  /** The number of digits of a `-?\d+` group, its sign not counted. */
  function DigitCount(t: string): nat {
    if |t| > 0 && t[0] == '-' then |t| - 1 else |t|
  }

  /** The default of `sys.get_int_max_str_digits()`: `int()` refuses decimal texts with more digits. */
  const IntMaxStrDigits: nat := 4300

  /** Python's `int()` of a `-?\d+` group: its value, or `ValueError` past the digit limit. */
  function IntOfText(t: string): Option<int>
    requires SignedDigitText(t)
  {
    if DigitCount(t) > IntMaxStrDigits then None else Some(SignedValue(t))
  }

  /** `n` as a log writer prints it: `-` and the digits of `|n|`, or just the digits. */
  function SignedText(n: int): (t: string)
    ensures SignedDigitText(t)
  {
    if n < 0 then "-" + NatToString(-n) else NatToString(n)
  }

  /**
   * Reading back a printed number gives the number, negative ones included, and
   * `int()` reads it back exactly when it has at most `IntMaxStrDigits` digits.
   */
  lemma SignedTextValue(n: int)
    ensures SignedValue(SignedText(n)) == n
    ensures IntOfText(SignedText(n)) ==
      if -(Pow10(IntMaxStrDigits) as int) < n < Pow10(IntMaxStrDigits) then Some(n) else None
  {
    var m: nat := if n < 0 then -n else n;
    var t := SignedText(n);
    if n < 0 {
      NatToStringValue(m);
      assert t[1..] == NatToString(m);
    } else {
      NatToStringValue(m);
      assert IsDigit(t[0]);
    }
    assert DigitCount(t) == |NatToString(m)|;
    NatToStringLength(m, IntMaxStrDigits);
  }

  /** The decoder on the non-blank lines of a block. */
  function ParseLines(lines: seq<string>): Option<LogRow> {
    if |lines| < 5 then None else ParseFields(lines[0], lines[1], lines[2], lines[4])
  }

  /** The decoding of the four lines that are read: the first, second, third and fifth. */
  function ParseFields(first: string, second: string, third: string, fifth: string): Option<LogRow> {
    var l1 :- MatchLine1(first);
    MatchLine1Sound(first);
    var ts :- Calendar.Strptime(l1.timestamp);
    var l2 :- MatchLine2(second);
    MatchLine2Sound(second);
    var responseTime :- IntOfText(l2.responseTime);
    if !IsFloatText(l2.cpu) then None
    else
      Some(LogRow(ts, l1.level, l1.service, l1.ticketId, l1.sessionId,
                  l2.ip, responseTime, l2.cpu, l2.eventType, l2.error,
                  MatchUserAgent(third), MatchTraceId(fifth)))
  }

  /** Python's `parse_log_block`. */
  function ParseLogBlock(block: string): Option<LogRow> {
    ParseLines(BlockLines(block))
  }

  /** A timestamp group `strptime` accepts. */
  predicate ValidStamp(t: string) {
    Calendar.TimestampShape(t) && Calendar.Strptime(t).Some?
  }

  /**
   * A block is accepted exactly when it has five non-blank lines, the first matches
   * line 1 with a real date and time, the second matches line 2 with a response
   * time of at most `IntMaxStrDigits` digits and a CPU token that is a float; the
   * third and fifth lines never cause a rejection.
   */
  lemma ParseLinesAcceptsIff(lines: seq<string>)
    ensures ParseLines(lines).Some? <==>
      && |lines| >= 5
      && MatchLine1(lines[0]).Some? && ValidStamp(MatchLine1(lines[0]).value.timestamp)
      && MatchLine2(lines[1]).Some? && DigitCount(MatchLine2(lines[1]).value.responseTime) <= IntMaxStrDigits
      && IsFloatText(MatchLine2(lines[1]).value.cpu)
  {
    if |lines| >= 5 && MatchLine1(lines[0]).Some? {
      MatchLine1Sound(lines[0]);
    }
  }

  /**
   * An accepted row is the captured text unchanged: line 1 spells the row's
   * timestamp (formatted back), level, service and ids; line 2 spells its ip, a
   * number whose value is the response time, the CPU token, event type and error;
   * the optional fields are what lines 3 and 5 give.
   */
  lemma ParsedRowIsCapturedText(lines: seq<string>)
    requires ParseLines(lines).Some?
    ensures var row := ParseLines(lines).value;
      && |lines| >= 5
      && Calendar.IsValid(row.timestamp)
      && (exists tail :: Boundary(tail) && lines[0] == RenderLine1(
            Line1(Calendar.Format(row.timestamp), row.logLevel, row.service, row.ticketId, row.sessionId), tail))
      && (exists rt, tail :: Boundary(tail) && SignedDigitText(rt) && DigitCount(rt) <= IntMaxStrDigits
            && SignedValue(rt) == row.responseTimeMs
            && lines[1] == RenderLine2(Line2(row.ip, rt, row.cpuPercent, row.eventType, row.error), tail))
      && IsFloatText(row.cpuPercent)
      && row.userAgent == MatchUserAgent(lines[2])
      && row.traceId == MatchTraceId(lines[4])
  {
    var row := ParseLines(lines).value;
    var l1 := MatchLine1(lines[0]).value;
    var l2 := MatchLine2(lines[1]).value;
    MatchLine1Sound(lines[0]);
    MatchLine2Sound(lines[1]);
    Calendar.StrptimeThenFormat(l1.timestamp);
    assert l1 == Line1(Calendar.Format(row.timestamp), row.logLevel, row.service, row.ticketId, row.sessionId);
    assert l2 == Line2(row.ip, l2.responseTime, row.cpuPercent, row.eventType, row.error);
  }

  /**
   * Lines spelled from well-formed groups are decoded to exactly those groups, when
   * the level holds no `]`, the service no space, the date is real, the response
   * time is within `int()`'s digit limit and the CPU token is a float, whatever follows on each line after a space.
   */
  lemma ParseRenderedLines(lines: seq<string>, f1: Line1, t1: string, f2: Line2, t2: string)
    requires |lines| >= 5
    requires WellFormedLine1(f1) && ']' !in f1.level && ' ' !in f1.service && Boundary(t1)
    requires ValidStamp(f1.timestamp)
    requires WellFormedLine2(f2) && IsFloatText(f2.cpu) && Boundary(t2)
    requires DigitCount(f2.responseTime) <= IntMaxStrDigits
    requires lines[0] == RenderLine1(f1, t1) && lines[1] == RenderLine2(f2, t2)
    ensures ParseLines(lines) == Some(LogRow(Calendar.Strptime(f1.timestamp).value,
      f1.level, f1.service, f1.ticketId, f1.sessionId,
      f2.ip, SignedValue(f2.responseTime), f2.cpu, f2.eventType, f2.error,
      MatchUserAgent(lines[2]), MatchTraceId(lines[4])))
  {
    MatchLine1Complete(f1, t1);
    MatchLine2Complete(f2, t2);
  }

  /**
   * Only lines 1, 2, 3 and 5 are read: line 4 and any lines past the fifth never
   * change the outcome.
   */
  lemma ParseLinesReadsOnlyFour(a: seq<string>, b: seq<string>)
    requires |a| >= 5 && |b| >= 5
    requires a[0] == b[0] && a[1] == b[1] && a[2] == b[2] && a[4] == b[4]
    ensures ParseLines(a) == ParseLines(b)
  {
  }

  /** Non-blank stripped lines joined by newlines form a stripped text. */
  lemma JoinTrimmed(lines: seq<string>)
    requires |lines| >= 1
    requires forall k :: 0 <= k < |lines| ==> lines[k] != [] && Trimmed(lines[k])
    ensures Trimmed(Join(lines, "\n"))
  {
    JoinEnds(lines, "\n");
  }

  /** Newline-free lines joined by newlines split back into the lines. */
  lemma SplitOnJoinLines(lines: seq<string>)
    requires |lines| >= 1
    requires forall k :: 0 <= k < |lines| ==> '\n' !in lines[k]
    ensures SplitOn(Join(lines, "\n"), "\n") == lines
  {
    forall k | 0 <= k < |lines|
      ensures ClosesCleanly(lines[k], "\n")
    {
      NoCharClosesCleanly(lines[k], '\n');
    }
    SplitOnJoin(lines, "\n");
  }

  /** Lines that are non-blank, stripped and newline-free, joined by newlines, come back as the lines. */
  lemma BlockLinesOfJoin(lines: seq<string>)
    requires |lines| >= 1
    requires forall k :: 0 <= k < |lines| ==> lines[k] != [] && Trimmed(lines[k]) && '\n' !in lines[k]
    ensures BlockLines(Join(lines, "\n")) == lines
  {
    var block := Join(lines, "\n");
    JoinTrimmed(lines);
    TrimmedStripIsIdentity(block);
    SplitOnJoinLines(lines);
    StrippedNonBlankKeeps(lines);
    assert Strip(block) == block;
    assert SplitOn(block, "\n") == lines;
  }

  /** A well-formed timestamp holds no newline and starts with a digit. */
  lemma StampNoNewline(t: string)
    requires Calendar.TimestampShape(t)
    ensures '\n' !in t && !IsSpace(t[0])
  {
    assert t[0] == t[0..4][0];
    forall i | 0 <= i < |t|
      ensures t[i] != '\n'
    {
      if i < 4 {
        assert t[i] == t[0..4][i];
      } else if 4 < i < 7 {
        assert t[i] == t[5..7][i - 5];
      } else if 7 < i < 10 {
        assert t[i] == t[8..10][i - 8];
      } else if 10 < i < 13 {
        assert t[i] == t[11..13][i - 11];
      } else if 13 < i < 16 {
        assert t[i] == t[14..16][i - 14];
      } else if 16 < i {
        assert t[i] == t[17..19][i - 17];
      }
    }
  }

  /** A line 1 spelled from well-formed groups survives stripping and splitting a block unchanged. */
  lemma RenderedLine1Clean(f: Line1)
    requires WellFormedLine1(f)
    ensures var l := RenderLine1(f, ""); l != [] && Trimmed(l) && '\n' !in l
  {
    StampNoNewline(f.timestamp);
    assert '\n' !in f.ticketId && '\n' !in f.sessionId;
    var a, b := " [", "] ";
    assert '\n' !in a && '\n' !in b && '\n' !in TicketTag && '\n' !in SessionTag;
    var l := RenderLine1(f, "");
    assert l == f.timestamp + (a + (f.level + (b + (f.service + (TicketTag + (f.ticketId + (SessionTag
      + (f.sessionId + ""))))))));
    assert l[|l| - 1] == f.sessionId[|f.sessionId| - 1];
  }

  /** A line 2 spelled from well-formed groups survives stripping and splitting a block unchanged. */
  lemma RenderedLine2Clean(f: Line2)
    requires WellFormedLine2(f)
    ensures var l := RenderLine2(f, ""); l != [] && Trimmed(l) && '\n' !in l
  {
    assert '\n' !in f.ip && '\n' !in f.cpu && '\n' !in f.eventType && '\n' !in f.error;
    assert '\n' !in f.responseTime;
    var a, b, c, d, e, g := " | Error=", " | EventType=", "%", "ms | CPU=", " | ResponseTime=", "IP=";
    assert '\n' !in a && '\n' !in b && '\n' !in c && '\n' !in d && '\n' !in e && '\n' !in g;
    var l := RenderLine2(f, "");
    assert l == g + (f.ip + (e + (f.responseTime + (d + (f.cpu + (c + (b + (f.eventType + (a + (f.error
      + ""))))))))));
    assert l[|l| - 1] == f.error[|f.error| - 1];
  }

  /** A block of five clean lines joined by newlines is decoded from exactly those lines. */
  lemma ParseFiveCleanLines(l1: string, l2: string, l3: string, l4: string, l5: string)
    requires l1 != [] && Trimmed(l1) && '\n' !in l1
    requires l2 != [] && Trimmed(l2) && '\n' !in l2
    requires l3 != [] && Trimmed(l3) && '\n' !in l3
    requires l4 != [] && Trimmed(l4) && '\n' !in l4
    requires l5 != [] && Trimmed(l5) && '\n' !in l5
    ensures ParseLogBlock(Join([l1, l2, l3, l4, l5], "\n")) == ParseLines([l1, l2, l3, l4, l5])
  {
    var lines := [l1, l2, l3, l4, l5];
    assert forall k :: 0 <= k < |lines| ==> lines[k] != [] && Trimmed(lines[k]) && '\n' !in lines[k];
    BlockLinesOfJoin(lines);
  }

  // ---------------------------------------------------------------- the worked example

  /** The groups of line 1 of the worked example. */
  const ExampleGroups1 := Line1("2025" + "-" + "07" + "-" + "01" + " " + "10" + ":" + "15" + ":" + "00",
    "ERROR", "billing-service", "T1001", "S55")

  /** The groups of line 2 of the worked example; the response time is negative. */
  const ExampleGroups2 := Line2("10.0.0.5", "-1", "87" + "." + "5", "timeout", "true")

  lemma ExampleLine1Level()
    ensures LazyGroup(ExampleGroups1.level) && ']' !in ExampleGroups1.level
  {
  }

  lemma ExampleLine1Service()
    ensures LazyGroup(ExampleGroups1.service) && ' ' !in ExampleGroups1.service
  {
  }

  lemma ExampleLine1Ids()
    ensures ExampleGroups1.ticketId != [] && NonSpaceText(ExampleGroups1.ticketId)
    ensures ExampleGroups1.sessionId != [] && NonSpaceText(ExampleGroups1.sessionId)
  {
  }

  lemma ExampleLine1WellFormed()
    ensures WellFormedLine1(ExampleGroups1) && ValidStamp(ExampleGroups1.timestamp)
    ensures Calendar.Strptime(ExampleGroups1.timestamp) == Some(Calendar.DateTime(2025, 7, 1, 10, 15, 0))
    ensures ']' !in ExampleGroups1.level && ' ' !in ExampleGroups1.service
  {
    Calendar.ExampleAccepted();
    ExampleLine1Level();
    ExampleLine1Service();
    ExampleLine1Ids();
  }

  lemma ExampleLine2Tokens()
    ensures ExampleGroups2.ip != [] && NonSpaceText(ExampleGroups2.ip)
    ensures ExampleGroups2.cpu != [] && NonSpaceText(ExampleGroups2.cpu)
    ensures ExampleGroups2.eventType != [] && NonSpaceText(ExampleGroups2.eventType)
    ensures ExampleGroups2.error != [] && NonSpaceText(ExampleGroups2.error)
  {
  }

  lemma ExampleLine2Numbers()
    ensures SignedDigitText(ExampleGroups2.responseTime) && SignedValue(ExampleGroups2.responseTime) == -1
    ensures DigitCount(ExampleGroups2.responseTime) == 1
    ensures IsFloatText(ExampleGroups2.cpu)
  {
    assert ExampleGroups2.responseTime[1..] == "1";
    DecimalIsFloat("87", "5");
  }

  lemma ExampleLine2WellFormed()
    ensures WellFormedLine2(ExampleGroups2) && IsFloatText(ExampleGroups2.cpu)
    ensures SignedValue(ExampleGroups2.responseTime) == -1 && DigitCount(ExampleGroups2.responseTime) <= IntMaxStrDigits
  {
    ExampleLine2Tokens();
    ExampleLine2Numbers();
  }

  /** Lines 3 and 5 of the worked example give the user agent and the trace id. */
  lemma ExampleOptionalLines()
    ensures MatchUserAgent(UserAgentTag + "Mozilla/5.0" + "\"") == Some("Mozilla/5.0")
    ensures MatchTraceId(TraceTag + "abc123") == Some("abc123")
  {
    MatchUserAgentIff("Mozilla/5.0", "");
    assert UserAgentTag + "Mozilla/5.0" + "\"" == UserAgentTag + "Mozilla/5.0" + "\"" + "";
    MatchTraceIdIff(TraceTag + "abc123", "abc123");
  }

  lemma ExampleOptionalClean()
    ensures var l := UserAgentTag + "Mozilla/5.0" + "\""; l != [] && Trimmed(l) && '\n' !in l
    ensures var l := TraceTag + "abc123"; l != [] && Trimmed(l) && '\n' !in l
  {
  }

  /** The row the worked example decodes to, field by field from its groups. */
  const ExampleRow := LogRow(Calendar.DateTime(2025, 7, 1, 10, 15, 0),
    ExampleGroups1.level, ExampleGroups1.service, ExampleGroups1.ticketId, ExampleGroups1.sessionId,
    ExampleGroups2.ip, -1, ExampleGroups2.cpu, ExampleGroups2.eventType, ExampleGroups2.error,
    Some("Mozilla/5.0"), Some("abc123"))

  lemma ExampleRowSpelled()
    ensures ExampleRow == LogRow(Calendar.DateTime(2025, 7, 1, 10, 15, 0), "ERROR", "billing-service", "T1001",
      "S55", "10.0.0.5", -1, "87.5", "timeout", "true", Some("Mozilla/5.0"), Some("abc123"))
  {
  }

  /** The five lines of the worked example decode to its row, whatever line 4 is. */
  lemma ExampleLines(l1: string, l2: string, l3: string, line4: string, l5: string)
    requires l1 == RenderLine1(ExampleGroups1, "") && l2 == RenderLine2(ExampleGroups2, "")
    requires l3 == UserAgentTag + "Mozilla/5.0" + "\"" && l5 == TraceTag + "abc123"
    ensures ParseLines([l1, l2, l3, line4, l5]) == Some(ExampleRow)
  {
    ExampleLine1WellFormed();
    ExampleLine2WellFormed();
    ExampleOptionalLines();
    ParseRenderedLines([l1, l2, l3, line4, l5], ExampleGroups1, "", ExampleGroups2, "");
  }

  /** The lines of the worked example come out of its block unchanged. */
  lemma ExampleBlockLines(l1: string, l2: string, l3: string, line4: string, l5: string)
    requires l1 == RenderLine1(ExampleGroups1, "") && l2 == RenderLine2(ExampleGroups2, "")
    requires l3 == UserAgentTag + "Mozilla/5.0" + "\"" && l5 == TraceTag + "abc123"
    requires line4 != [] && Trimmed(line4) && '\n' !in line4
    ensures ParseLogBlock(Join([l1, l2, l3, line4, l5], "\n")) == ParseLines([l1, l2, l3, line4, l5])
  {
    ExampleLine1WellFormed();
    ExampleLine2WellFormed();
    RenderedLine1Clean(ExampleGroups1);
    RenderedLine2Clean(ExampleGroups2);
    ExampleOptionalClean();
    ParseFiveCleanLines(l1, l2, l3, line4, l5);
  }

  /**
   * The worked example: the block of the two rendered lines, the user-agent line,
   * any non-blank line 4 and the trace line decodes to this row; the minus sign of
   * the response time is kept and the level and error stay raw text.
   */
  lemma ExampleBlock(l1: string, l2: string, l3: string, line4: string, l5: string)
    requires l1 == RenderLine1(ExampleGroups1, "") && l2 == RenderLine2(ExampleGroups2, "")
    requires l3 == UserAgentTag + "Mozilla/5.0" + "\"" && l5 == TraceTag + "abc123"
    requires line4 != [] && Trimmed(line4) && '\n' !in line4
    ensures ParseLogBlock(Join([l1, l2, l3, line4, l5], "\n"))
      == Some(LogRow(Calendar.DateTime(2025, 7, 1, 10, 15, 0), "ERROR", "billing-service", "T1001", "S55",
                     "10.0.0.5", -1, "87.5", "timeout", "true", Some("Mozilla/5.0"), Some("abc123")))
  {
    ExampleBlockLines(l1, l2, l3, line4, l5);
    ExampleLines(l1, l2, l3, line4, l5);
    ExampleRowSpelled();
  }
}
