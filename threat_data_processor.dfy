/**
 * The threat-feed pipeline: shape check of a feed line, HH:MM:SS duration
 * conversion, the line loop that builds one ThreatRecord per valid line, and
 * blacklist correlation, which sets the investigation flag on every stored
 * record whose attacker IP is blacklisted.
 */
module ThreatDataProcessor {
  import opened Results
  import opened Text
  import opened IntText

  /** One attack incident, as stored in the attacks table. */
  datatype ThreatRecord = ThreatRecord(
    attackType: string,
    date: string,
    attackerIp: string,
    country: string,
    durationSec: int,
    dataLeakedMb: int,
    isInvestigated: bool)

  /** The ValueError that aborts a whole feed: int() refused a field. */
  datatype ContentError =
    | BadDuration(duration: string)
    | BadLeakedMb(dataLeakedMb: string)

  /** What the line loop does with one line of the feed. */
  datatype LineOutcome =
    | Blank                        // nothing but whitespace: skipped
    | Malformed(line: string)      // wrong field count: diagnostic, skipped
    | Parsed(record: ThreatRecord) // appended to the result
    | Fatal(error: ContentError)   // raises out of the whole call

  // ---------------------------------------------------------------------
  // Shape check

  /** A feed line has the right shape iff its stripped text splits on commas
      into exactly six fields, that is, holds exactly five commas. */
  function ValidateThreatFormat(line: string): (ok: bool)
    ensures ok <==> Count(Strip(line), ',') == 5
  {
    |Split(Strip(line), ',')| == 6
  }

  // ---------------------------------------------------------------------
  // Duration conversion

  /** "HH:MM:SS" to seconds; None where `parse_duration_to_seconds` raises ValueError (not
      exactly three ':'-separated parts, or a part int() refuses). Minutes
      and seconds are not range-checked and a part may carry a sign. */
  function ParseDuration(d: string): (r: Option<int>)
    ensures r.Some? ==> Count(d, ':') == 2
  {
    var parts := Split(d, ':');
    if |parts| != 3 then None
    else ClockSeconds(ParseInt(parts[0]), ParseInt(parts[1]), ParseInt(parts[2]))
  }

  /** hours * 3600 + minutes * 60 + seconds, once int() succeeded on all three. */
  function ClockSeconds(h: Option<int>, m: Option<int>, s: Option<int>): Option<int> {
    if h.Some? && m.Some? && s.Some? then Some(h.value * 3600 + m.value * 60 + s.value) else None
  }

  /** Two-digit, zero-padded rendering of a clock component (wider when needed). */
  function Pad2(v: nat): (s: string)
    ensures forall i :: 0 <= i < |s| ==> IsDigit(s[i])
  {
    if v < 10 then "0" + RenderNat(v) else RenderNat(v)
  }

  /** The canonical HH:MM:SS text of a non-negative number of seconds. */
  function FormatDuration(sec: nat): string {
    Pad2(sec / 3600) + ":" + Pad2(sec % 3600 / 60) + ":" + Pad2(sec % 60)
  }

  /** For any three ':'-free parts, the conversion is hours*3600 + minutes*60
      + seconds of what int() makes of them, and fails when int() fails on
      any of them. */
  lemma DurationOfParts(h: string, m: string, s: string)
    requires ':' !in h && ':' !in m && ':' !in s
    ensures ParseDuration(h + ":" + m + ":" + s) == ClockSeconds(ParseInt(h), ParseInt(m), ParseInt(s))
  {
    assert [h, m, s][1..] == [m, s] && [m, s][1..] == [s];
    assert Join([s], ':') == s;
    assert Join([m, s], ':') == m + [':'] + s;
    assert Join([h, m, s], ':') == h + [':'] + (m + [':'] + s);
    assert h + ":" + m + ":" + s == Join([h, m, s], ':');
    SplitJoin([h, m, s], ':');
  }

  /** Any three integers, rendered and joined with ':', convert to
      h*3600 + m*60 + s: no bound on minutes or seconds, no sign check. */
  lemma DurationOfRendered(h: int, m: int, s: int)
    ensures ParseDuration(Render(h) + ":" + Render(m) + ":" + Render(s)) == Some(h * 3600 + m * 60 + s)
  {
    var rh, rm, rs := Render(h), Render(m), Render(s);
    assert ':' !in rh && ':' !in rm && ':' !in rs;
    ParseIntRender(h);
    ParseIntRender(m);
    ParseIntRender(s);
    DurationOfParts(rh, rm, rs);
    assert ClockSeconds(Some(h), Some(m), Some(s)) == Some(h * 3600 + m * 60 + s);
  }

  lemma ParsePad2(v: nat)
    ensures ParseInt(Pad2(v)) == Some(v) && ':' !in Pad2(v) && ',' !in Pad2(v)
  {
    var s := Pad2(v);
    if v < 10 {
      assert s == "0" + RenderNat(v);
      ParseIntZeroPadded(v);
    } else {
      assert s == RenderNat(v);
      ParseIntRender(v);
    }
  }

  lemma ClockArithmetic(sec: nat, hh: int, mm: int, ss: int)
    requires hh == sec / 3600 && mm == sec % 3600 / 60 && ss == sec % 60
    ensures ClockSeconds(Some(hh), Some(mm), Some(ss)) == Some(sec)
  {
    var r := sec % 3600;
    assert sec == hh * 3600 + r;
    assert r == mm * 60 + r % 60;
    assert sec == (hh * 60 + mm) * 60 + r % 60;
    assert sec % 60 == r % 60;
  }

  lemma FormatDurationParts(sec: nat)
    ensures ParseDuration(FormatDuration(sec)) ==
      ClockSeconds(ParseInt(Pad2(sec / 3600)), ParseInt(Pad2(sec % 3600 / 60)), ParseInt(Pad2(sec % 60)))
  {
    var ph, pm, ps := Pad2(sec / 3600), Pad2(sec % 3600 / 60), Pad2(sec % 60);
    ParsePad2(sec / 3600);
    ParsePad2(sec % 3600 / 60);
    ParsePad2(sec % 60);
    assert FormatDuration(sec) == ph + ":" + pm + ":" + ps;
    DurationOfParts(ph, pm, ps);
  }

  /** Round trip: the canonical HH:MM:SS text converts back to the seconds. */
  lemma FormatDurationRoundTrip(sec: nat)
    ensures ParseDuration(FormatDuration(sec)) == Some(sec)
  {
    FormatDurationParts(sec);
    ParsePad2(sec / 3600);
    ParsePad2(sec % 3600 / 60);
    ParsePad2(sec % 60);
    ClockArithmetic(sec, sec / 3600, sec % 3600 / 60, sec % 60);
  }

  // ---------------------------------------------------------------------
  // Record building

  /** The loop body of the feed processor for one line: strip it, skip it if
      blank or of the wrong shape, otherwise split the stripped line into its
      six fields (the first four copied as they are), convert the duration
      and then the leaked megabytes, either of which may raise. */
  function ParseThreatLine(raw: string): (r: LineOutcome)
    ensures r.Blank? <==> Strip(raw) == []
    ensures r.Malformed? <==> Strip(raw) != [] && Count(Strip(raw), ',') != 5
    ensures r.Parsed? ==> !r.record.isInvestigated
    ensures r.Parsed? ==> ',' !in r.record.attackType && ',' !in r.record.date
                          && ',' !in r.record.attackerIp && ',' !in r.record.country
    ensures Strip(raw) != [] && Count(Strip(raw), ',') == 5 ==> r == BuildRecord(Split(Strip(raw), ','))
  {
    var line := Strip(raw);
    StripIsTrimmed(raw);
    StripTrimmed(line);
    if line == [] then Blank
    else if !ValidateThreatFormat(line) then Malformed(line)
    else
      var f := Split(line, ',');
      assert ',' !in f[0] && ',' !in f[1] && ',' !in f[2] && ',' !in f[3];
      var r := BuildRecord(f);
      assert r.Parsed? || r.Fatal?;
      r
  }

  /** The six fields of a well-shaped line made into a record: the duration is
      converted first, then the leaked megabytes; each conversion may raise. */
  function BuildRecord(f: seq<string>): (r: LineOutcome)
    requires |f| == 6
    ensures r.Parsed? || r.Fatal?
    ensures r.Parsed? <==> ParseDuration(f[4]).Some? && ParseInt(f[5]).Some?
    ensures r.Parsed? ==> r.record.attackType == f[0] && r.record.date == f[1]
                          && r.record.attackerIp == f[2] && r.record.country == f[3]
                          && r.record.durationSec == ParseDuration(f[4]).value
                          && r.record.dataLeakedMb == ParseInt(f[5]).value
                          && !r.record.isInvestigated
    ensures r.Fatal? ==> r.error == if ParseDuration(f[4]).None? then BadDuration(f[4]) else BadLeakedMb(f[5])
  {
    match ParseDuration(f[4])
    case None => Fatal(BadDuration(f[4]))
    case Some(sec) =>
      match ParseInt(f[5])
      case None => Fatal(BadLeakedMb(f[5]))
      case Some(mb) => Parsed(ThreatRecord(f[0], f[1], f[2], f[3], sec, mb, false))
  }

  /** A feed line in the format the feed is written in: six comma-separated
      fields, the duration as HH:MM:SS. */
  function FormatThreatLine(t: ThreatRecord): string
    requires t.durationSec >= 0
  {
    Join([t.attackType, t.date, t.attackerIp, t.country,
          FormatDuration(t.durationSec), Render(t.dataLeakedMb)], ',')
  }

  /** The records a feed line can describe: comma-free text fields, an attack
      type that does not start with whitespace (strip() would eat it), a
      non-negative duration, and not yet investigated. */
  predicate Describable(t: ThreatRecord) {
    && ',' !in t.attackType && ',' !in t.date && ',' !in t.attackerIp && ',' !in t.country
    && (t.attackType == [] || !IsSpace(t.attackType[0]))
    && t.durationSec >= 0
    && !t.isInvestigated
  }

  /** The six fields a feed line is written from. */
  function FieldsOf(t: ThreatRecord): (f: seq<string>)
    requires t.durationSec >= 0
    ensures |f| == 6
  {
    [t.attackType, t.date, t.attackerIp, t.country, FormatDuration(t.durationSec), Render(t.dataLeakedMb)]
  }

  /** Written durations and numbers hold no comma. */
  lemma WrittenFieldsCommaFree(t: ThreatRecord)
    requires t.durationSec >= 0
    ensures ',' !in FieldsOf(t)[4] && ',' !in FieldsOf(t)[5]
  {
    var d := FormatDuration(t.durationSec);
    var p0, p1, p2 := Pad2(t.durationSec / 3600), Pad2(t.durationSec % 3600 / 60), Pad2(t.durationSec % 60);
    assert d == p0 + ":" + p1 + ":" + p2;
    assert !IsDigit(',');
    assert forall i :: 0 <= i < |d| ==> IsDigit(d[i]) || d[i] == ':';
  }

  /** A written feed line is already stripped and splits back into its six
      fields. */
  lemma FormatThreatLineSplits(t: ThreatRecord)
    requires Describable(t)
    ensures Split(FormatThreatLine(t), ',') == FieldsOf(t)
  {
    WrittenFieldsCommaFree(t);
    SplitJoin(FieldsOf(t), ',');
  }

  /** A written feed line has no whitespace to strip. */
  lemma FormatThreatLineTrimmed(t: ThreatRecord)
    requires Describable(t)
    ensures Trimmed(FormatThreatLine(t)) && FormatThreatLine(t) != []
  {
    var fields := FieldsOf(t);
    var line := FormatThreatLine(t);
    assert Render(t.dataLeakedMb) == fields[5];
    JoinLast(fields, ',');
    assert line == fields[0] + [','] + Join(fields[1..], ',');
    assert line[0] == if t.attackType == [] then ',' else t.attackType[0];
  }

  /** The fields of a written line build the record back. */
  lemma BuildRecordOfFields(t: ThreatRecord)
    requires Describable(t)
    ensures BuildRecord(FieldsOf(t)) == Parsed(t)
  {
    FormatDurationRoundTrip(t.durationSec);
    ParseIntRender(t.dataLeakedMb);
  }

  /** Round trip: a record written as a feed line is read back as itself. */
  lemma ThreatLineRoundTrip(t: ThreatRecord)
    requires Describable(t)
    ensures ParseThreatLine(FormatThreatLine(t)) == Parsed(t)
  {
    FormatThreatLineSplits(t);
    FormatThreatLineTrimmed(t);
    StripTrimmed(FormatThreatLine(t));
    BuildRecordOfFields(t);
  }

  // ---------------------------------------------------------------------
  // The line loop

  /** What the loop body makes of each line of a feed, in file order. */
  function Outcomes(lines: seq<string>): (outs: seq<LineOutcome>)
    ensures |outs| == |lines|
  {
    seq(|lines|, i requires 0 <= i < |lines| => ParseThreatLine(lines[i]))
  }

  /** Gathers the records of a sequence of line outcomes, in order, stopping
      at the first content error. */
  function Collect(outs: seq<LineOutcome>): (r: Result<seq<ThreatRecord>, ContentError>)
    ensures r.Success? ==> |r.value| <= |outs|
  {
    if outs == [] then Success([])
    else
      match outs[0]
      case Fatal(e) => Failure(e)
      case Parsed(t) => Prepend([t], Collect(outs[1..]))
      case _ => Collect(outs[1..])
  }

  /** What processing a whole feed yields: the records of its lines in file
      order, or the error of its first line that raises. */
  function ThreatsOf(lines: seq<string>): Result<seq<ThreatRecord>, ContentError> {
    Collect(Outcomes(lines))
  }

  /** Records collected so far, followed by what the rest of the feed yields. */
  function Prepend(done: seq<ThreatRecord>, rest: Result<seq<ThreatRecord>, ContentError>)
    : (r: Result<seq<ThreatRecord>, ContentError>)
    ensures r.Success? <==> rest.Success?
  {
    match rest
    case Failure(e) => Failure(e)
    case Success(more) => Success(done + more)
  }

  /** The line loop itself: appends a record per parsed line, skips blank and
      malformed lines, and gives up at the first content error. */
  method ProcessThreatsFile(lines: seq<string>) returns (r: Result<seq<ThreatRecord>, ContentError>)
    ensures r == ThreatsOf(lines)
  {
    ghost var outs := Outcomes(lines);
    var threats: seq<ThreatRecord> := [];
    var i := 0;
    assert outs[i..] == outs;
    match Collect(outs) {
      case Failure(_) =>
      case Success(all) => assert threats + all == all;
    }
    while i < |lines|
      invariant 0 <= i <= |lines|
      invariant Collect(outs) == Prepend(threats, Collect(outs[i..]))
    {
      var outcome := ParseThreatLine(lines[i]);
      assert outcome == outs[i] == outs[i..][0];
      assert outs[i..][1..] == outs[i + 1..];
      match outcome {
        case Blank =>
        case Malformed(_) =>
        case Fatal(e) =>
          return Failure(e);
        case Parsed(t) =>
          match Collect(outs[i + 1..]) {
            case Failure(_) =>
            case Success(more) => assert threats + ([t] + more) == (threats + [t]) + more;
          }
          threats := threats + [t];
      }
      i := i + 1;
    }
    assert outs[i..] == [];
    assert threats + [] == threats;
    r := Success(threats);
  }

  /** The feed succeeds iff no line raises. */
  lemma {:induction false} CollectSucceeds(outs: seq<LineOutcome>)
    ensures Collect(outs).Success? <==> forall i :: 0 <= i < |outs| ==> !outs[i].Fatal?
  {
    if outs != [] {
      CollectSucceeds(outs[1..]);
      assert forall i :: 1 <= i < |outs| ==> outs[i] == outs[1..][i - 1];
    }
  }

  /** A failing feed reports the error of its first line that raises; no
      partial list of records is returned. */
  lemma {:induction false} CollectFirstError(outs: seq<LineOutcome>, e: ContentError)
    ensures Collect(outs) == Failure(e) <==>
            exists i :: 0 <= i < |outs| && outs[i] == Fatal(e)
                        && forall j :: 0 <= j < i ==> !outs[j].Fatal?
  {
    if outs != [] {
      var tail := outs[1..];
      CollectFirstError(tail, e);
      if outs[0] == Fatal(e) {
        assert 0 < |outs| && outs[0] == Fatal(e);
      } else if !outs[0].Fatal? {
        assert Collect(outs) == Failure(e) <==> Collect(tail) == Failure(e);
        if Collect(tail) == Failure(e) {
          var i :| 0 <= i < |tail| && tail[i] == Fatal(e)
                   && forall j :: 0 <= j < i ==> !tail[j].Fatal?;
          assert outs[i + 1] == tail[i];
          assert forall j :: 1 <= j < i + 1 ==> outs[j] == tail[j - 1];
        }
        if exists i :: 0 <= i < |outs| && outs[i] == Fatal(e)
                       && forall j :: 0 <= j < i ==> !outs[j].Fatal? {
          var i :| 0 <= i < |outs| && outs[i] == Fatal(e)
                   && forall j :: 0 <= j < i ==> !outs[j].Fatal?;
          assert i > 0 && tail[i - 1] == outs[i];
          assert forall j :: 0 <= j < i - 1 ==> tail[j] == outs[j + 1];
        }
      }
    }
  }

  /** Every record of a successful feed is the record of one of its lines,
      and every line that parses contributes its record. */
  lemma {:induction false} CollectMembers(outs: seq<LineOutcome>, t: ThreatRecord)
    requires Collect(outs).Success?
    ensures t in Collect(outs).value <==> exists i :: 0 <= i < |outs| && outs[i] == Parsed(t)
  {
    if outs != [] {
      var tail := outs[1..];
      CollectMembers(tail, t);
      if exists i :: 0 <= i < |tail| && tail[i] == Parsed(t) {
        var i :| 0 <= i < |tail| && tail[i] == Parsed(t);
        assert outs[i + 1] == tail[i];
      }
      if exists i :: 0 <= i < |outs| && outs[i] == Parsed(t) {
        var i :| 0 <= i < |outs| && outs[i] == Parsed(t);
        if i > 0 {
          assert tail[i - 1] == outs[i];
        }
      }
    }
  }

  /** Processing is line by line in file order: a feed made of two parts
      yields the records of the first part followed by those of the second,
      unless the first part raises, in which case the second is never read. */
  lemma {:induction false} CollectAppend(a: seq<LineOutcome>, b: seq<LineOutcome>)
    ensures Collect(a + b) ==
      match Collect(a)
      case Failure(e) => Failure(e)
      case Success(x) => Prepend(x, Collect(b))
  {
    if a == [] {
      assert a + b == b;
      match Collect(b) {
        case Failure(_) =>
        case Success(y) => assert [] + y == y;
      }
    } else {
      assert (a + b)[0] == a[0];
      assert (a + b)[1..] == a[1..] + b;
      CollectAppend(a[1..], b);
      match Collect(b) {
        case Failure(_) =>
        case Success(y) =>
          match Collect(a[1..]) {
            case Failure(_) =>
            case Success(x) =>
              if a[0].Parsed? {
                assert [a[0].record] + (x + y) == [a[0].record] + x + y;
              }
          }
      }
    }
  }

  /** The outcomes of a feed made of two parts are those of the parts. */
  lemma OutcomesAppend(a: seq<string>, b: seq<string>)
    ensures Outcomes(a + b) == Outcomes(a) + Outcomes(b)
  {
  }

  // ---------------------------------------------------------------------
  // Blacklist correlation

  /** The blacklist file as read: its non-blank lines, stripped, in file order,
      duplicates kept. */
  function BlacklistOf(lines: seq<string>): (ips: seq<string>)
    ensures |ips| <= |lines|
  {
    if lines == [] then []
    else (if Strip(lines[0]) != [] then [Strip(lines[0])] else []) + BlacklistOf(lines[1..])
  }

  /** The reading loop: appends every non-blank stripped line. */
  method ReadBlacklist(lines: seq<string>) returns (ips: seq<string>)
    ensures ips == BlacklistOf(lines)
  {
    ips := [];
    var i := 0;
    assert lines[i..] == lines;
    while i < |lines|
      invariant 0 <= i <= |lines|
      invariant BlacklistOf(lines) == ips + BlacklistOf(lines[i..])
    {
      BlacklistStep(lines, i);
      var ip := Strip(lines[i]);
      if ip != [] {
        assert ips + ([ip] + BlacklistOf(lines[i + 1..])) == (ips + [ip]) + BlacklistOf(lines[i + 1..]);
        ips := ips + [ip];
      }
      i := i + 1;
    }
    assert lines[i..] == [];
    assert ips + [] == ips;
  }

  /** One step of the reading loop. */
  lemma BlacklistStep(lines: seq<string>, i: nat)
    requires i < |lines|
    ensures BlacklistOf(lines[i..]) == if Strip(lines[i]) != []
                                       then [Strip(lines[i])] + BlacklistOf(lines[i + 1..])
                                       else BlacklistOf(lines[i + 1..])
  {
    assert lines[i..][1..] == lines[i + 1..];
    assert lines[i..][0] == lines[i];
    assert [] + BlacklistOf(lines[i + 1..]) == BlacklistOf(lines[i + 1..]);
  }

  /** Each entry is the stripped text of a non-blank line, and every non-blank
      line gives an entry. */
  lemma {:induction false} BlacklistMembers(lines: seq<string>, ip: string)
    ensures ip in BlacklistOf(lines) <==>
            ip != [] && exists i :: 0 <= i < |lines| && Strip(lines[i]) == ip
  {
    if lines != [] {
      var tail := lines[1..];
      BlacklistMembers(tail, ip);
      if exists i :: 0 <= i < |tail| && Strip(tail[i]) == ip {
        var i :| 0 <= i < |tail| && Strip(tail[i]) == ip;
        assert lines[i + 1] == tail[i];
      }
      if exists i :: 0 <= i < |lines| && Strip(lines[i]) == ip {
        var i :| 0 <= i < |lines| && Strip(lines[i]) == ip;
        if i > 0 {
          assert tail[i - 1] == lines[i];
        }
      }
    }
  }

  /** The blacklist keeps file order and duplicates: a file made of two parts
      reads as the entries of the first followed by those of the second. */
  lemma {:induction false} BlacklistAppend(a: seq<string>, b: seq<string>)
    ensures BlacklistOf(a + b) == BlacklistOf(a) + BlacklistOf(b)
  {
    if a == [] {
      assert a + b == b;
    } else {
      assert (a + b)[0] == a[0];
      assert (a + b)[1..] == a[1..] + b;
      BlacklistAppend(a[1..], b);
    }
  }

  /** Effect of one UPDATE ... SET is_investigated = TRUE WHERE attacker_ip = ip
      on one row. */
  function Mark(t: ThreatRecord, ip: string): (r: ThreatRecord)
    ensures r.isInvestigated <==> t.isInvestigated || t.attackerIp == ip
    ensures r.(isInvestigated := t.isInvestigated) == t
  {
    if t.attackerIp == ip then t.(isInvestigated := true) else t
  }

  /** Effect of that UPDATE on the whole table. */
  function MarkAll(table: seq<ThreatRecord>, ip: string): (r: seq<ThreatRecord>)
    ensures |r| == |table|
  {
    seq(|table|, i requires 0 <= i < |table| => Mark(table[i], ip))
  }

  /** The table after one UPDATE per blacklist entry, issued in order. */
  function ApplyUpdates(table: seq<ThreatRecord>, ips: seq<string>): (r: seq<ThreatRecord>)
    ensures |r| == |table|
    decreases |ips|
  {
    if ips == [] then table else ApplyUpdates(MarkAll(table, ips[0]), ips[1..])
  }

  /** After the updates, a record is investigated iff it already was or its
      attacker IP is on the blacklist; nothing else about any record changes. */
  lemma {:induction false} ApplyUpdatesEffect(table: seq<ThreatRecord>, ips: seq<string>)
    ensures |ApplyUpdates(table, ips)| == |table|
    ensures forall i :: 0 <= i < |table| ==>
      ApplyUpdates(table, ips)[i] ==
        table[i].(isInvestigated := table[i].isInvestigated || table[i].attackerIp in ips)
    decreases |ips|
  {
    if ips != [] {
      var next := MarkAll(table, ips[0]);
      ApplyUpdatesEffect(next, ips[1..]);
      forall i | 0 <= i < |table|
        ensures ApplyUpdates(table, ips)[i] ==
          table[i].(isInvestigated := table[i].isInvestigated || table[i].attackerIp in ips)
      {
        assert next[i] == Mark(table[i], ips[0]);
        assert table[i].attackerIp in ips <==>
               table[i].attackerIp == ips[0] || table[i].attackerIp in ips[1..];
      }
    }
  }

  /** Running the correlation twice gives the same table as running it once. */
  lemma ApplyUpdatesIdempotent(table: seq<ThreatRecord>, ips: seq<string>)
    ensures ApplyUpdates(ApplyUpdates(table, ips), ips) == ApplyUpdates(table, ips)
  {
    var once := ApplyUpdates(table, ips);
    ApplyUpdatesEffect(table, ips);
    ApplyUpdatesEffect(once, ips);
  }

  /** Only the set of blacklisted IPs matters: neither the order of the
      entries nor their repetition changes the outcome. */
  lemma ApplyUpdatesBySet(table: seq<ThreatRecord>, ips1: seq<string>, ips2: seq<string>)
    requires forall ip :: ip in ips1 <==> ip in ips2
    ensures ApplyUpdates(table, ips1) == ApplyUpdates(table, ips2)
  {
    ApplyUpdatesEffect(table, ips1);
    ApplyUpdatesEffect(table, ips2);
  }

  /** A blacklisted IP that matches no record changes nothing. */
  lemma UnmatchedIpIsNoOp(table: seq<ThreatRecord>, ips: seq<string>, ip: string)
    requires forall i :: 0 <= i < |table| ==> table[i].attackerIp != ip
    ensures ApplyUpdates(table, ips + [ip]) == ApplyUpdates(table, ips)
  {
    ApplyUpdatesEffect(table, ips + [ip]);
    ApplyUpdatesEffect(table, ips);
    forall i | 0 <= i < |table|
      ensures table[i].attackerIp in ips + [ip] <==> table[i].attackerIp in ips
    {
    }
  }

  /** One UPDATE, run as an in-place pass over the table. */
  method MarkInvestigated(table: array<ThreatRecord>, ip: string)
    modifies table
    ensures table[..] == MarkAll(old(table[..]), ip)
  {
    var i := 0;
    while i < table.Length
      invariant 0 <= i <= table.Length
      invariant forall j :: 0 <= j < i ==> table[j] == Mark(old(table[j]), ip)
      invariant forall j :: i <= j < table.Length ==> table[j] == old(table[j])
    {
      table[i] := Mark(table[i], ip);
      i := i + 1;
    }
  }

  /** Reads the blacklist, then issues one update per entry, in order, against
      the in-memory attacks table; returns how many updates were issued. */
  method UpdateInvestigatedStatus(blacklistLines: seq<string>, table: array<ThreatRecord>)
    returns (updates: nat)
    modifies table
    ensures updates == |BlacklistOf(blacklistLines)|
    ensures table[..] == ApplyUpdates(old(table[..]), BlacklistOf(blacklistLines))
  {
    var ips := ReadBlacklist(blacklistLines);
    updates := 0;
    assert ips[updates..] == ips;
    while updates < |ips|
      invariant 0 <= updates <= |ips|
      invariant ApplyUpdates(old(table[..]), ips) == ApplyUpdates(table[..], ips[updates..])
    {
      assert ips[updates..][1..] == ips[updates + 1..];
      MarkInvestigated(table, ips[updates]);
      updates := updates + 1;
    }
    assert ips[updates..] == [];
  }
}
