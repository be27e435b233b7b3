/**
 * The four line patterns of a log block, each written out as the match that
 * Python's `re.match` performs: anchored at the start of the line only (text after
 * the match is allowed), `\S+` and `\d+` greedy, `(.+?)` lazy with backtracking,
 * and `.` any character but a newline.
 *
 *   line 1  `(\d{4}-\d{2}-\d{2} \d{2}:\d{2}:\d{2}) \[(.+?)\] (.+?) - TicketID=(\S+) SessionID=(\S+)`
 *   line 2  `IP=(\S+) \| ResponseTime=(-?\d+)ms \| CPU=(\S+)% \| EventType=(\S+) \| Error=(\S+)`
 *   line 3  `UserAgent="(.+?)"`
 *   line 5  `TraceID=(.+)`
 *
 * Each pattern comes with a rendering of its groups and lemmas saying when the
 * match gives those groups back.
 */
module LogPatterns {
  import opened Wrappers
  import opened Text
  import Calendar

  /** A captured group and the text after it. */
  datatype Cut = Cut(group: string, rest: string)

  /** The text after the literal `p`, when `s` starts with it. */
  function Literal(s: string, p: string): (r: Option<string>)
    ensures r.Some? <==> StartsWith(s, p)
    ensures r.Some? ==> s == p + r.value
  {
    if StartsWith(s, p) then Some(s[|p|..]) else None
  }

  lemma LiteralOf(p: string, rest: string)
    ensures Literal(p + rest, p) == Some(rest)
  {
    assert (p + rest)[..|p|] == p;
    assert (p + rest)[|p|..] == rest;
  }

  /** Length of the longest prefix of `s` matching `\S*`. */
  function NonSpaceRun(s: string): (n: nat)
    ensures n <= |s|
    ensures forall i :: 0 <= i < n ==> !IsSpace(s[i])
    ensures n == |s| || IsSpace(s[n])
  {
    if |s| == 0 || IsSpace(s[0]) then 0 else 1 + NonSpaceRun(s[1..])
  }

  /** Length of the longest prefix of `s` matching `\d*`. */
  function DigitRun(s: string): (n: nat)
    ensures n <= |s|
    ensures forall i :: 0 <= i < n ==> IsDigit(s[i])
    ensures n == |s| || !IsDigit(s[n])
  {
    if |s| == 0 || !IsDigit(s[0]) then 0 else 1 + DigitRun(s[1..])
  }

  /**
   * `(\S+)` where what follows in the pattern begins with a space or is the end of
   * the pattern: only the maximal run can be followed by a space, so the group is
   * the maximal non-space run, which must be non-empty.
   */
  function Token(s: string): (r: Option<Cut>)
    ensures r.Some? ==> s == r.value.group + r.value.rest
    ensures r.Some? ==> r.value.group != [] && NonSpaceText(r.value.group)
    ensures r.Some? ==> r.value.rest == [] || IsSpace(r.value.rest[0])
    ensures r.None? ==> s == [] || IsSpace(s[0])
  {
    var n := NonSpaceRun(s);
    if n == 0 then None else Some(Cut(s[..n], s[n..]))
  }

  lemma TokenOf(t: string, rest: string)
    requires t != [] && NonSpaceText(t)
    requires rest == [] || IsSpace(rest[0])
    ensures Token(t + rest) == Some(Cut(t, rest))
  {
    var s := t + rest;
    assert forall i :: 0 <= i < |t| ==> s[i] == t[i];
    assert rest != [] ==> s[|t|] == rest[0];
    var n := NonSpaceRun(s);
    assert n == |t|;
    assert s[..n] == t && s[n..] == rest;
  }

  /**
   * `(-?\d+)` followed by `ms`: the minus sign when there is one, then the maximal
   * digit run (a shorter run would leave a digit where `m` must stand).
   */
  function SignedDigits(s: string): (r: Option<Cut>)
    ensures r.Some? ==> s == r.value.group + r.value.rest
    ensures r.Some? ==> SignedDigitText(r.value.group)
    ensures r.Some? ==> r.value.rest == [] || !IsDigit(r.value.rest[0])
  {
    if |s| > 0 && s[0] == '-' then
      var t := s[1..];
      var n := DigitRun(t);
      if n == 0 then None
      else
        var g := s[..n + 1];
        assert g[1..] == t[..n];
        assert s[n + 1..] == t[n..];
        Some(Cut(g, s[n + 1..]))
    else
      var n := DigitRun(s);
      if n == 0 then None else Some(Cut(s[..n], s[n..]))
  }

  /** `-?\d+` as a whole. */
  predicate SignedDigitText(t: string) {
    if |t| > 0 && t[0] == '-' then |t| > 1 && DigitText(t[1..]) else t != [] && DigitText(t)
  }

  lemma SignedDigitsOf(t: string, rest: string)
    requires SignedDigitText(t)
    requires rest == [] || !IsDigit(rest[0])
    ensures SignedDigits(t + rest) == Some(Cut(t, rest))
  {
    var s := t + rest;
    var k := if t[0] == '-' then 1 else 0;
    var u := s[k..];
    assert u == t[k..] + rest;
    assert forall i :: 0 <= i < |t| - k ==> u[i] == t[k + i];
    assert rest != [] ==> u[|t| - k] == rest[0];
    var n := DigitRun(u);
    assert n == |t| - k;
    assert s[..k + n] == t && s[k + n..] == rest;
  }

  /** What may follow a greedy `\S+` group that ends a pattern: nothing, or a space. */
  predicate Boundary(tail: string) {
    tail == [] || IsSpace(tail[0])
  }

  /** `key(\S+)` followed by a space or the end: the token after the literal `key`. */
  function KeyToken(s: string, key: string): (r: Option<Cut>)
    ensures r.Some? ==> s == key + (r.value.group + r.value.rest)
    ensures r.Some? ==> r.value.group != [] && NonSpaceText(r.value.group)
    ensures r.Some? ==> Boundary(r.value.rest)
  {
    var rest :- Literal(s, key);
    Token(rest)
  }

  lemma KeyTokenOf(key: string, t: string, rest: string)
    requires t != [] && NonSpaceText(t) && Boundary(rest)
    ensures KeyToken(key + (t + rest), key) == Some(Cut(t, rest))
  {
    LiteralOf(key, t + rest);
    TokenOf(t, rest);
  }

  /** `key(-?\d+)`: the signed number after the literal `key`. */
  function KeyNumber(s: string, key: string): (r: Option<Cut>)
    ensures r.Some? ==> s == key + (r.value.group + r.value.rest)
    ensures r.Some? ==> SignedDigitText(r.value.group)
    ensures r.Some? ==> r.value.rest == [] || !IsDigit(r.value.rest[0])
  {
    var rest :- Literal(s, key);
    SignedDigits(rest)
  }

  lemma KeyNumberOf(key: string, t: string, rest: string)
    requires SignedDigitText(t)
    requires rest == [] || !IsDigit(rest[0])
    ensures KeyNumber(key + (t + rest), key) == Some(Cut(t, rest))
  {
    LiteralOf(key, t + rest);
    SignedDigitsOf(t, rest);
  }

  /**
   * `key(\S+)%` followed by a space: `\S+` backtracks from the maximal run to the
   * position before its last character, which must be the `%`; any shorter group
   * leaves a non-space character where the following space must stand.
   */
  function KeyPercent(s: string, key: string): (r: Option<Cut>)
    ensures r.Some? ==> s == key + (r.value.group + ("%" + r.value.rest))
    ensures r.Some? ==> r.value.group != [] && NonSpaceText(r.value.group)
    ensures r.Some? ==> Boundary(r.value.rest)
  {
    var m :- KeyToken(s, key);
    var g := m.group;
    if |g| < 2 || g[|g| - 1] != '%' then None
    else
      PercentSplit(g, m.rest);
      Some(Cut(g[..|g| - 1], m.rest))
  }

  /** A token ending in `%`, cut before the `%`. */
  lemma PercentSplit(g: string, rest: string)
    requires |g| >= 2 && g[|g| - 1] == '%' && NonSpaceText(g)
    ensures g + rest == g[..|g| - 1] + ("%" + rest)
    ensures g[..|g| - 1] != [] && NonSpaceText(g[..|g| - 1])
  {
    var v := g[..|g| - 1];
    assert g == v + "%";
    forall k | 0 <= k < |v|
      ensures !IsSpace(v[k])
    {
      assert v[k] == g[k];
    }
  }

  lemma KeyPercentOf(key: string, t: string, rest: string)
    requires t != [] && NonSpaceText(t) && Boundary(rest)
    ensures KeyPercent(key + (t + ("%" + rest)), key) == Some(Cut(t, rest))
  {
    assert t + ("%" + rest) == (t + "%") + rest;
    KeyTokenOf(key, t + "%", rest);
    assert (t + "%")[..|t|] == t;
  }

  // ---------------------------------------------------------------- line 2

  /** The five groups of line 2, as the raw captured text. */
  datatype Line2 = Line2(ip: string, responseTime: string, cpu: string, eventType: string, error: string)

  /** The match of the line-2 pattern at the start of `s`. */
  function MatchLine2(s: string): Option<Line2> {
    var ip :- KeyToken(s, "IP=");
    var rt :- KeyNumber(ip.rest, " | ResponseTime=");
    var cpu :- KeyPercent(rt.rest, "ms | CPU=");
    var ev :- KeyToken(cpu.rest, " | EventType=");
    var err :- KeyToken(ev.rest, " | Error=");
    Some(Line2(ip.group, rt.group, cpu.group, ev.group, err.group))
  }

  /** Line 2 spelled out from its groups, followed by `tail`. */
  function RenderLine2(f: Line2, tail: string): string {
    "IP=" + (f.ip + (" | ResponseTime=" + (f.responseTime + ("ms | CPU=" + (f.cpu + ("%" +
    (" | EventType=" + (f.eventType + (" | Error=" + (f.error + tail))))))))))
  }

  /** Groups the line-2 pattern can capture. */
  predicate WellFormedLine2(f: Line2) {
    && f.ip != [] && NonSpaceText(f.ip)
    && SignedDigitText(f.responseTime)
    && f.cpu != [] && NonSpaceText(f.cpu)
    && f.eventType != [] && NonSpaceText(f.eventType)
    && f.error != [] && NonSpaceText(f.error)
  }

  /** What line 2 matched is its groups spelled out, then nothing or a space and anything. */
  lemma MatchLine2Sound(s: string)
    requires MatchLine2(s).Some?
    ensures WellFormedLine2(MatchLine2(s).value)
    ensures exists tail :: Boundary(tail) && s == RenderLine2(MatchLine2(s).value, tail)
  {
    var ip := KeyToken(s, "IP=").value;
    var rt := KeyNumber(ip.rest, " | ResponseTime=").value;
    var cpu := KeyPercent(rt.rest, "ms | CPU=").value;
    var ev := KeyToken(cpu.rest, " | EventType=").value;
    var err := KeyToken(ev.rest, " | Error=").value;
    assert s == RenderLine2(MatchLine2(s).value, err.rest);
  }

  /** Well-formed groups spelled out, then nothing or a space and anything, match back. */
  lemma MatchLine2Complete(f: Line2, tail: string)
    requires WellFormedLine2(f) && Boundary(tail)
    ensures MatchLine2(RenderLine2(f, tail)) == Some(f)
  {
    var r4 := f.error + tail;
    var r3 := f.eventType + (" | Error=" + r4);
    var r2 := f.cpu + ("%" + (" | EventType=" + r3));
    var r1 := f.responseTime + ("ms | CPU=" + r2);
    KeyTokenOf("IP=", f.ip, " | ResponseTime=" + r1);
    KeyNumberOf(" | ResponseTime=", f.responseTime, "ms | CPU=" + r2);
    KeyPercentOf("ms | CPU=", f.cpu, " | EventType=" + r3);
    KeyTokenOf(" | EventType=", f.eventType, " | Error=" + r4);
    KeyTokenOf(" | Error=", f.error, tail);
  }

  // ---------------------------------------------------------------- line 1

  /** The five groups of line 1, as the raw captured text. */
  datatype Line1 = Line1(timestamp: string, level: string, service: string, ticketId: string, sessionId: string)

  const TicketTag: string := " - TicketID="
  const SessionTag: string := " SessionID="

  /** `TicketID=(\S+) SessionID=(\S+)` once ` - TicketID=` has been read: the two ids. */
  function MatchIds(r: string): Option<(Cut, Cut)> {
    var t :- Token(r);
    var u :- KeyToken(t.rest, SessionTag);
    Some((t, u))
  }

  /** A lazy `(.+?)` can capture `g`: at least one character, none a newline. */
  predicate LazyGroup(g: string) {
    g != [] && '\n' !in g
  }

  /** The service group `(.+?)` can be the first `j` characters of `r` and the rest of line 1 then matches. */
  predicate ServiceFits(r: string, j: nat) {
    && j + |TicketTag| <= |r|
    && LazyGroup(r[..j])
    && r[j..j + |TicketTag|] == TicketTag
    && IdsFit(r[j + |TicketTag|..])
  }

  /** The text after ` - TicketID=` completes line 1. */
  predicate IdsFit(r: string) {
    MatchIds(r).Some?
  }

  /** The least `k >= j` at which the service group fits. */
  function FindService(r: string, j: nat): (k: Option<nat>)
    decreases |r| - j
    ensures k.Some? ==> j <= k.value && ServiceFits(r, k.value)
    ensures forall m: nat :: j <= m && ServiceFits(r, m) ==> k.Some? && k.value <= m
  {
    if j + |TicketTag| > |r| then None
    else if ServiceFits(r, j) then Some(j)
    else FindService(r, j + 1)
  }

  /**
   * With `r` the text after ` [`, the level group can be the first `i` characters
   * and the service group the next `j` after `] `, and the rest of line 1 matches.
   */
  predicate LevelFits(r: string, i: nat, j: nat) {
    LevelHead(r, i) && ServiceFits(r[i + 2..], j)
  }

  /** The level group can be the first `i` characters of `r`, closed by `] `. */
  predicate LevelHead(r: string, i: nat) {
    i + 2 <= |r| && LazyGroup(r[..i]) && r[i..i + 2] == "] "
  }

  /** No service length fits after a level of `i` characters when the head or every service fails. */
  lemma NoLevelAt(r: string, i: nat)
    requires i + 2 <= |r|
    requires !LevelHead(r, i) || FindService(r[i + 2..], 0).None?
    ensures forall n: nat :: !LevelFits(r, i, n)
  {
  }

  /** The shortest service after a level of `i` characters is the shortest fit at that level. */
  lemma LevelFound(r: string, i: nat)
    requires LevelHead(r, i) && FindService(r[i + 2..], 0).Some?
    ensures LevelFits(r, i, FindService(r[i + 2..], 0).value)
    ensures forall n: nat :: LevelFits(r, i, n) ==> FindService(r[i + 2..], 0).value <= n
  {
  }

  /** The least level length `>= i`, with the least service length that goes with it. */
  function FindLevel(r: string, i: nat): (res: Option<(nat, nat)>)
    decreases |r| - i
    ensures res.Some? ==> i <= res.value.0 && LevelFits(r, res.value.0, res.value.1)
    ensures forall m: nat, n: nat :: i <= m && LevelFits(r, m, n) ==>
      res.Some? && (res.value.0 < m || (res.value.0 == m && res.value.1 <= n))
  {
    if i + 2 > |r| then None
    else
      var k := FindService(r[i + 2..], 0);
      if LevelHead(r, i) && k.Some? then
        LevelFound(r, i);
        Some((i, k.value))
      else
        NoLevelAt(r, i);
        FindLevel(r, i + 1)
  }

  /** The line-1 pattern matches `s` with a level group of `i` and a service group of `j` characters. */
  predicate Line1Fits(s: string, i: nat, j: nat) {
    && |s| >= 21
    && Calendar.TimestampShape(s[..19])
    && s[19..21] == " ["
    && LevelFits(s[21..], i, j)
  }

  /**
   * The lengths of the two lazy groups the regular-expression engine settles on:
   * the shortest level for which any service works, then the shortest service.
   */
  function FindLine1(s: string): (res: Option<(nat, nat)>)
    ensures res.Some? ==> Line1Fits(s, res.value.0, res.value.1)
    ensures res.Some? ==> forall i: nat, j: nat :: Line1Fits(s, i, j) ==>
      res.value.0 < i || (res.value.0 == i && res.value.1 <= j)
    ensures res.None? ==> forall i: nat, j: nat :: !Line1Fits(s, i, j)
  {
    if |s| < 21 || !Calendar.TimestampShape(s[..19]) || s[19..21] != " [" then None
    else FindLevel(s[21..], 0)
  }

  /** The match of the line-1 pattern at the start of `s`. */
  function MatchLine1(s: string): Option<Line1> {
    var (i, j) :- FindLine1(s);
    var r := s[21..];
    var r2 := r[i + 2..];
    var ids := MatchIds(r2[j + |TicketTag|..]).value;
    Some(Line1(s[..19], r[..i], r2[..j], ids.0.group, ids.1.group))
  }

  /** Line 1 spelled out from its groups, followed by `tail`. */
  function RenderLine1(f: Line1, tail: string): string {
    f.timestamp + (" [" + (f.level + ("] " + (f.service + (TicketTag + (f.ticketId + (SessionTag
    + (f.sessionId + tail))))))))
  }

  /** Groups the line-1 pattern can capture. */
  predicate WellFormedLine1(f: Line1) {
    && Calendar.TimestampShape(f.timestamp)
    && LazyGroup(f.level)
    && LazyGroup(f.service)
    && f.ticketId != [] && NonSpaceText(f.ticketId)
    && f.sessionId != [] && NonSpaceText(f.sessionId)
  }

  /** The two sides of a text joined around the literal `p`. */
  lemma Around(a: string, p: string, b: string)
    ensures (a + (p + b))[..|a|] == a
    ensures (a + (p + b))[|a|..|a| + |p|] == p
    ensures (a + (p + b))[|a| + |p|..] == b
  {
  }

  /** `s` split where the literal `p` starts at `n`. */
  lemma SplitAt(s: string, n: nat, p: string)
    requires n + |p| <= |s| && s[n..n + |p|] == p
    ensures s == s[..n] + (p + s[n + |p|..])
  {
    assert s[n..] == s[n..n + |p|] + s[n + |p|..];
    assert s == s[..n] + s[n..];
  }

  /** What the two id groups matched, spelled out. */
  lemma IdsSound(r: string)
    requires IdsFit(r)
    ensures var ids := MatchIds(r).value;
      && r == ids.0.group + (SessionTag + (ids.1.group + ids.1.rest))
      && ids.0.group != [] && NonSpaceText(ids.0.group)
      && ids.1.group != [] && NonSpaceText(ids.1.group)
      && Boundary(ids.1.rest)
  {
  }

  /** A fit of line 1 cuts the text into the timestamp, the two lazy groups and the ids. */
  lemma Line1Parts(s: string, i: nat, j: nat)
    requires Line1Fits(s, i, j)
    ensures |s| >= 21 && i + 2 <= |s[21..]| && j + |TicketTag| <= |s[21..][i + 2..]|
    ensures var r := s[21..]; var r2 := r[i + 2..]; var r3 := r2[j + |TicketTag|..];
      && s == s[..19] + (" [" + r)
      && r == r[..i] + ("] " + r2)
      && r2 == r2[..j] + (TicketTag + r3)
      && IdsFit(r3)
      && Calendar.TimestampShape(s[..19]) && LazyGroup(r[..i]) && LazyGroup(r2[..j])
  {
    var r := s[21..];
    var r2 := r[i + 2..];
    SplitAt(r2, j, TicketTag);
    SplitAt(r, i, "] ");
    SplitAt(s, 19, " [");
  }

  /** What line 1 matched is its groups spelled out, then nothing or a space and anything. */
  lemma MatchLine1Sound(s: string)
    requires MatchLine1(s).Some?
    ensures WellFormedLine1(MatchLine1(s).value)
    ensures exists tail :: Boundary(tail) && s == RenderLine1(MatchLine1(s).value, tail)
  {
    var ij := FindLine1(s).value;
    var i, j := ij.0, ij.1;
    Line1Parts(s, i, j);
    var r := s[21..];
    var r2 := r[i + 2..];
    var r3 := r2[j + |TicketTag|..];
    var ids := MatchIds(r3).value;
    IdsSound(r3);
    MatchLine1At(s, i, j, r, r2, r3, ids);
    var f := Line1(s[..19], r[..i], r2[..j], ids.0.group, ids.1.group);
    assert s == RenderLine1(f, ids.1.rest);
    assert WellFormedLine1(f);
  }

  lemma IdsOf(t: string, u: string, tail: string)
    requires t != [] && NonSpaceText(t) && u != [] && NonSpaceText(u) && Boundary(tail)
    ensures MatchIds(t + (SessionTag + (u + tail))) == Some((Cut(t, SessionTag + (u + tail)), Cut(u, tail)))
  {
    TokenOf(t, SessionTag + (u + tail));
    KeyTokenOf(SessionTag, u, tail);
  }

  /** A service group can only close where ` - TicketID=` starts, at a space. */
  lemma ServiceClosesAtSpace(r: string, n: nat)
    requires ServiceFits(r, n)
    ensures r[n] == ' '
  {
    assert r[n] == r[n..n + |TicketTag|][0];
  }

  /** A level group can only close at a `]`. */
  lemma LevelClosesAtBracket(r: string, m: nat)
    requires LevelHead(r, m)
    ensures r[m] == ']'
  {
    assert r[m] == r[m..m + 2][0];
  }

  /** A service without spaces is the only, hence the shortest, service group that fits. */
  lemma ServiceAt(service: string, rest: string)
    requires LazyGroup(service) && ' ' !in service && IdsFit(rest)
    ensures ServiceFits(service + (TicketTag + rest), |service|)
    ensures forall n: nat :: ServiceFits(service + (TicketTag + rest), n) ==> |service| <= n
  {
    var r := service + (TicketTag + rest);
    var j := |service|;
    Around(service, TicketTag, rest);
    assert forall k :: 0 <= k < j ==> r[k] == service[k];
    forall n: nat | ServiceFits(r, n)
      ensures j <= n
    {
      ServiceClosesAtSpace(r, n);
    }
  }

  /** A level without `]` is the only, hence the shortest, level group closed by `] `. */
  lemma LevelAt(level: string, rest: string)
    requires LazyGroup(level) && ']' !in level
    ensures LevelHead(level + ("] " + rest), |level|)
    ensures (level + ("] " + rest))[|level| + 2..] == rest
    ensures forall m: nat :: LevelHead(level + ("] " + rest), m) ==> |level| <= m
  {
    var r := level + ("] " + rest);
    var i := |level|;
    Around(level, "] ", rest);
    assert forall k :: 0 <= k < i ==> r[k] == level[k];
    forall m: nat | LevelHead(r, m)
      ensures i <= m
    {
      LevelClosesAtBracket(r, m);
    }
  }

  /** The least pair of group lengths that fits is the one `FindLine1` returns. */
  lemma Line1FitsAt(s: string, timestamp: string, r: string, i: nat, j: nat)
    requires s == timestamp + (" [" + r) && Calendar.TimestampShape(timestamp) && LevelFits(r, i, j)
    ensures Line1Fits(s, i, j) && s[21..] == r
  {
    Around(timestamp, " [", r);
  }

  lemma FindLine1Least(s: string, i: nat, j: nat)
    requires Line1Fits(s, i, j)
    requires forall m: nat, n: nat :: Line1Fits(s, m, n) ==> i < m || (i == m && j <= n)
    ensures FindLine1(s) == Some((i, j))
  {
    var res := FindLine1(s).value;
    assert Line1Fits(s, res.0, res.1);
    assert res.0 == i && res.1 == j;
  }

  /** Lower bounds on each lazy group give a lower bound on every fit of line 1. */
  lemma LeastLine1Fit(s: string, r: string, r2: string, i: nat, j: nat)
    requires |s| >= 21 && s[21..] == r && i + 2 <= |r| && r[i + 2..] == r2
    requires forall m: nat :: LevelHead(r, m) ==> i <= m
    requires forall n: nat :: ServiceFits(r2, n) ==> j <= n
    ensures forall m: nat, n: nat :: Line1Fits(s, m, n) ==> i < m || (i == m && j <= n)
  {
    forall m: nat, n: nat | Line1Fits(s, m, n)
      ensures i < m || (i == m && j <= n)
    {
      assert LevelHead(r, m);
      assert m == i ==> ServiceFits(r2, n);
    }
  }

  /**
   * On well-formed groups whose level holds no `]` and whose service holds no space,
   * the engine settles on exactly those two groups: neither lazy group can close early.
   */
  lemma FindLine1Of(f: Line1, tail: string)
    requires WellFormedLine1(f) && Boundary(tail)
    requires ']' !in f.level && ' ' !in f.service
    ensures FindLine1(RenderLine1(f, tail)) == Some((|f.level|, |f.service|))
  {
    var r3 := f.ticketId + (SessionTag + (f.sessionId + tail));
    var r2 := f.service + (TicketTag + r3);
    var r := f.level + ("] " + r2);
    var s := RenderLine1(f, tail);
    var i: nat, j: nat := |f.level|, |f.service|;
    assert s == f.timestamp + (" [" + r);
    IdsOf(f.ticketId, f.sessionId, tail);
    ServiceAt(f.service, r3);
    LevelAt(f.level, r2);
    assert LevelFits(r, i, j);
    Line1FitsAt(s, f.timestamp, r, i, j);
    LeastLine1Fit(s, r, r2, i, j);
    FindLine1Least(s, i, j);
  }

  /** `MatchLine1` reads its groups off the lengths `FindLine1` settles on. */
  lemma MatchLine1At(s: string, i: nat, j: nat, r: string, r2: string, r3: string, ids: (Cut, Cut))
    requires FindLine1(s) == Some((i, j))
    requires s[21..] == r && r[i + 2..] == r2 && r2[j + |TicketTag|..] == r3 && MatchIds(r3) == Some(ids)
    ensures MatchLine1(s) == Some(Line1(s[..19], r[..i], r2[..j], ids.0.group, ids.1.group))
  {
  }

  /** Well-formed groups spelled out, under the same conditions, match back. */
  lemma MatchLine1Complete(f: Line1, tail: string)
    requires WellFormedLine1(f) && Boundary(tail)
    requires ']' !in f.level && ' ' !in f.service
    ensures MatchLine1(RenderLine1(f, tail)) == Some(f)
  {
    var r3 := f.ticketId + (SessionTag + (f.sessionId + tail));
    var r2 := f.service + (TicketTag + r3);
    var r := f.level + ("] " + r2);
    var s := RenderLine1(f, tail);
    Around(f.timestamp, " [", r);
    Around(f.level, "] ", r2);
    Around(f.service, TicketTag, r3);
    FindLine1Of(f, tail);
    IdsOf(f.ticketId, f.sessionId, tail);
    MatchLine1At(s, |f.level|, |f.service|, r, r2, r3, MatchIds(r3).value);
  }

  // ---------------------------------------------------------------- line 3

  const UserAgentTag: string := "UserAgent=\""

  /** The lazy group `(.+?)` can be the first `k` characters of `r`, closed by a quote. */
  predicate QuoteFits(r: string, k: nat) {
    k < |r| && LazyGroup(r[..k]) && r[k] == '"'
  }

  /** The least `n >= k` at which a closing quote fits. */
  function FindQuote(r: string, k: nat): (n: Option<nat>)
    decreases |r| - k
    ensures n.Some? ==> k <= n.value && QuoteFits(r, n.value)
    ensures n.Some? ==> forall m: nat :: k <= m < n.value ==> !QuoteFits(r, m)
    ensures n.None? ==> forall m: nat :: k <= m ==> !QuoteFits(r, m)
  {
    if k >= |r| then None
    else if QuoteFits(r, k) then Some(k)
    else FindQuote(r, k + 1)
  }

  /** The match of `UserAgent="(.+?)"` at the start of `s`: the user agent, or `None`. */
  function MatchUserAgent(s: string): Option<string> {
    var rest :- Literal(s, UserAgentTag);
    var k :- FindQuote(rest, 0);
    Some(rest[..k])
  }

  /**
   * The user agent is the text between `UserAgent="` and the first quote after its
   * first character: exactly the values with no newline and no quote past the first
   * character.
   */
  lemma MatchUserAgentIff(v: string, tail: string)
    ensures MatchUserAgent(UserAgentTag + v + "\"" + tail) == Some(v) <==>
      LazyGroup(v) && '"' !in v[1..]
  {
    var rest := v + "\"" + tail;
    assert UserAgentTag + v + "\"" + tail == UserAgentTag + rest;
    LiteralOf(UserAgentTag, rest);
    assert rest[..|v|] == v && rest[|v|] == '"';
    if LazyGroup(v) && '"' !in v[1..] {
      assert QuoteFits(rest, |v|);
      forall m: nat | m < |v|
        ensures !QuoteFits(rest, m)
      {
        if 0 < m {
          assert rest[m] == v[1..][m - 1];
        }
      }
    }
    if MatchUserAgent(UserAgentTag + rest) == Some(v) {
      var k := FindQuote(rest, 0).value;
      assert rest[..k] == v;
      forall m | 1 <= m < |v|
        ensures v[m] != '"'
      {
        assert rest[..m] == v[..m];
        assert !QuoteFits(rest, m);
      }
      assert forall c :: c in v[1..] ==> c != '"';
    }
  }

  // ---------------------------------------------------------------- line 5

  const TraceTag: string := "TraceID="

  /** Length of the longest prefix of `s` holding no newline (what `.*` reaches). */
  function LineRun(s: string): (n: nat)
    ensures n <= |s| && '\n' !in s[..n]
    ensures n == |s| || s[n] == '\n'
  {
    if |s| == 0 || s[0] == '\n' then 0
    else
      var n := 1 + LineRun(s[1..]);
      assert s[..n] == [s[0]] + s[1..][..n - 1];
      n
  }

  /** The match of `TraceID=(.+)` at the start of `s`: the trace id, or `None`. */
  function MatchTraceId(s: string): Option<string> {
    var rest :- Literal(s, TraceTag);
    var n := LineRun(rest);
    if n == 0 then None else Some(rest[..n])
  }

  /** On a line without newlines the trace id is everything after `TraceID=`, if anything is. */
  lemma MatchTraceIdIff(s: string, v: string)
    requires '\n' !in s
    ensures MatchTraceId(s) == Some(v) <==> s == TraceTag + v && v != []
  {
    assert (TraceTag + v)[..|TraceTag|] == TraceTag;
    if StartsWith(s, TraceTag) {
      var rest := s[|TraceTag|..];
      assert forall i :: 0 <= i < |rest| ==> rest[i] == s[i + |TraceTag|];
      assert '\n' !in rest;
      assert LineRun(rest) == |rest|;
      assert rest[..|rest|] == rest;
      assert s == TraceTag + rest;
      assert (TraceTag + v)[|TraceTag|..] == v;
    }
  }

  // ---------------------------------------------------------------- float()

  /** `str.lower()` on ASCII letters; every other character is kept. */
  function LowerAscii(s: string): (r: string)
    ensures |r| == |s|
    ensures forall i :: 0 <= i < |s| ==> r[i] == (if 'A' <= s[i] <= 'Z' then (s[i] as int + 32) as char else s[i])
  {
    if s == [] then []
    else
      var c := s[0];
      [if 'A' <= c <= 'Z' then (c as int + 32) as char else c] + LowerAscii(s[1..])
  }

  /** A digit group of Python's numeric grammar: digits, single underscores only between digits. */
  predicate DigitPart(p: string) {
    && p != [] && IsDigit(p[0]) && IsDigit(p[|p| - 1])
    && (forall i :: 0 <= i < |p| ==> IsDigit(p[i]) || p[i] == '_')
    && (forall i :: 0 <= i < |p| - 1 && p[i] == '_' ==> p[i + 1] != '_')
  }

  /** Index of the first character of `s` that is `a` or `b`, or `|s|`. */
  function IndexOfEither(s: string, a: char, b: char): (n: nat)
    ensures n <= |s|
    ensures forall i :: 0 <= i < n ==> s[i] != a && s[i] != b
    ensures n < |s| ==> s[n] == a || s[n] == b
  {
    if s == [] || s[0] == a || s[0] == b then 0 else 1 + IndexOfEither(s[1..], a, b)
  }

  function DropSign(s: string): string {
    if |s| > 0 && (s[0] == '+' || s[0] == '-') then s[1..] else s
  }

  /** `digits [. [digits]]` or `. digits`. */
  predicate IsMantissa(m: string) {
    var dot := IndexOfEither(m, '.', '.');
    if dot == |m| then DigitPart(m)
    else
      var whole, frac := m[..dot], m[dot + 1..];
      (whole == [] || DigitPart(whole)) && (frac == [] || DigitPart(frac)) && (whole != [] || frac != [])
  }

  /** `inf`, `infinity` or `nan` in any letter case. */
  predicate IsSpecialWord(body: string) {
    LowerAscii(body) in {"inf", "infinity", "nan"}
  }

  /** A mantissa, optionally followed by `e` or `E`, an optional sign and a digit group. */
  predicate IsNumeral(body: string) {
    var e := IndexOfEither(body, 'e', 'E');
    IsMantissa(body[..e]) && (e == |body| || DigitPart(DropSign(body[e + 1..])))
  }

  /** The text Python's `float()` accepts (without surrounding whitespace): an optional sign, then a special word or a numeral. */
  predicate IsFloatText(s: string) {
    IsSpecialWord(DropSign(s)) || IsNumeral(DropSign(s))
  }

  /** A character that can occur in a numeric literal other than `inf`, `infinity` or `nan`. */
  predicate FloatChar(c: char) {
    IsDigit(c) || c == '.' || c == '_' || c == '+' || c == '-' || c == 'e' || c == 'E'
  }

  /** A non-empty run of digits is a digit group. */
  lemma DigitTextIsPart(p: string)
    requires p != [] && DigitText(p)
    ensures DigitPart(p)
  {
  }

  /** The first `a` or `b` of `s` is at `n` when `s[n]` is one and no earlier character is. */
  lemma IndexOfEitherAt(s: string, a: char, b: char, n: nat)
    requires n <= |s| && (n < |s| ==> s[n] == a || s[n] == b)
    requires forall i :: 0 <= i < n ==> s[i] != a && s[i] != b
    ensures IndexOfEither(s, a, b) == n
  {
  }

  /** A decimal `w.f` with digit runs on both sides is accepted by `float()`. */
  lemma DecimalIsFloat(w: string, f: string)
    requires w != [] && DigitText(w) && f != [] && DigitText(f)
    ensures IsFloatText(w + "." + f)
  {
    var s := w + "." + f;
    assert DropSign(s) == s;
    assert forall i :: 0 <= i < |w| ==> s[i] == w[i];
    assert forall i :: |w| < i < |s| ==> s[i] == f[i - |w| - 1];
    IndexOfEitherAt(s, 'e', 'E', |s|);
    IndexOfEitherAt(s, '.', '.', |w|);
    assert s[..|s|] == s;
    assert s[..|w|] == w && s[|w| + 1..] == f;
    DigitTextIsPart(w);
    DigitTextIsPart(f);
  }

  /** A run of digits is accepted by `float()`. */
  lemma IntegerIsFloat(w: string)
    requires w != [] && DigitText(w)
    ensures IsFloatText(w)
  {
    assert DropSign(w) == w;
    IndexOfEitherAt(w, 'e', 'E', |w|);
    IndexOfEitherAt(w, '.', '.', |w|);
    assert w[..|w|] == w;
    DigitTextIsPart(w);
  }

  /** Every character of a digit group, or of a mantissa, is a numeric-literal character. */
  lemma MantissaChars(m: string)
    requires IsMantissa(m)
    ensures forall i :: 0 <= i < |m| ==> FloatChar(m[i])
  {
    var dot := IndexOfEither(m, '.', '.');
    if dot < |m| {
      var whole, frac := m[..dot], m[dot + 1..];
      forall i | 0 <= i < |m|
        ensures FloatChar(m[i])
      {
        if i < dot {
          assert m[i] == whole[i];
        } else if i > dot {
          assert m[i] == frac[i - dot - 1];
        }
      }
    }
  }

  /** A sign in front keeps every character a numeric-literal character. */
  lemma DropSignChars(x: string)
    requires forall i :: 0 <= i < |DropSign(x)| ==> FloatChar(DropSign(x)[i])
    ensures forall i :: 0 <= i < |x| ==> FloatChar(x[i])
  {
    forall i | 0 <= i < |x|
      ensures FloatChar(x[i])
    {
      if DropSign(x) != x && i > 0 {
        assert x[i] == DropSign(x)[i - 1];
      }
    }
  }

  /** Every character of a numeral is a numeric-literal character. */
  lemma NumeralChars(body: string)
    requires IsNumeral(body)
    ensures forall i :: 0 <= i < |body| ==> FloatChar(body[i])
  {
    var e := IndexOfEither(body, 'e', 'E');
    var m := body[..e];
    MantissaChars(m);
    if e < |body| {
      var x := body[e + 1..];
      assert forall i :: 0 <= i < |DropSign(x)| ==> FloatChar(DropSign(x)[i]);
      DropSignChars(x);
      forall i | 0 <= i < |body|
        ensures FloatChar(body[i])
      {
        if i < e {
          assert body[i] == m[i];
        } else if i > e {
          assert body[i] == x[i - e - 1];
        }
      }
    } else {
      assert m == body;
    }
  }

  /** Every character of a text `float()` accepts as a number (not a special word) is a numeric-literal character. */
  lemma FloatTextChars(s: string)
    requires IsFloatText(s) && !IsSpecialWord(DropSign(s))
    ensures forall i :: 0 <= i < |s| ==> FloatChar(s[i])
  {
    NumeralChars(DropSign(s));
    DropSignChars(s);
  }

  /**
   * A text with a character no numeric literal uses is refused by `float()`, unless
   * it spells `inf`, `infinity` or `nan` after an optional sign.
   */
  lemma StrayCharIsNotFloat(s: string, k: nat)
    requires k < |s| && !FloatChar(s[k])
    requires !IsSpecialWord(DropSign(s))
    ensures !IsFloatText(s)
  {
    if IsFloatText(s) {
      FloatTextChars(s);
    }
  }

  /** A CPU token such as `n/a` or `abc` is refused, which rejects its block. */
  lemma ExampleNotFloat()
    ensures !IsFloatText("n/a") && !IsFloatText("abc")
  {
    assert LowerAscii("n/a")[1] == '/';
    StrayCharIsNotFloat("n/a", 1);
    assert LowerAscii("abc")[0] == 'a';
    StrayCharIsNotFloat("abc", 0);
  }
}
