/**
 * The activity-log pipeline: a log line is four comma-separated fields
 * "ip, timestamp, action, result"; entries whose result is FAILURE are
 * suspicious; the analysis collects the suspicious entries in file order and
 * the set of distinct IPs among them; the results are written back out one
 * line per entry, and one line per IP.
 */
module ActivityLogAnalyzer {
  import opened Results
  import opened Text

  /** One access/activity event. */
  datatype LogEntry = LogEntry(ip: string, timestamp: string, action: string, result: string)

  /** A field as the parser hands it out: no comma, no surrounding whitespace. */
  predicate Clean(f: string) {
    ',' !in f && Trimmed(f)
  }

  predicate CleanEntry(e: LogEntry) {
    Clean(e.ip) && Clean(e.timestamp) && Clean(e.action) && Clean(e.result)
  }

  /** A line splits into an entry iff it holds exactly three commas; the four
      parts, each stripped, become ip, timestamp, action and result, in that
      order. Otherwise the result is empty; the parser never raises. */
  function ParseLogLine(line: string): (r: Option<LogEntry>)
    ensures r.Some? <==> Count(line, ',') == 3
  {
    var parts := Split(line, ',');
    if |parts| != 4 then None
    else Some(LogEntry(Strip(parts[0]), Strip(parts[1]), Strip(parts[2]), Strip(parts[3])))
  }

  /** Every field the parser hands out is clean. */
  lemma ParsedIsClean(line: string)
    requires ParseLogLine(line).Some?
    ensures CleanEntry(ParseLogLine(line).value)
  {
    var parts := Split(line, ',');
    forall k | 0 <= k < 4 ensures Clean(Strip(parts[k])) {
      StripIsTrimmed(parts[k]);
      StripKeepsOut(parts[k], ',');
    }
  }

  /** The only suspicion rule: the result is exactly "FAILURE" (case-sensitive). */
  predicate IsSuspicious(e: LogEntry)
    ensures IsSuspicious(e) ==> Clean(e.result)
  {
    e.result == "FAILURE"
  }

  /** What the analysis loop makes of one line: blank lines and lines that do
      not parse give nothing. */
  function EntryOf(line: string): (r: Option<LogEntry>)
    ensures r.Some? <==> Strip(line) != [] && Count(Strip(line), ',') == 3
  {
    var l := Strip(line);
    if l == [] then None else ParseLogLine(l)
  }

  /** What the loop body makes of each line of a log, in file order. */
  function EntriesOf(lines: seq<string>): (opts: seq<Option<LogEntry>>)
    ensures |opts| == |lines|
  {
    seq(|lines|, i requires 0 <= i < |lines| => EntryOf(lines[i]))
  }

  /** The suspicious entries among the per-line results, in order. */
  function Keep(opts: seq<Option<LogEntry>>): (r: seq<LogEntry>)
    ensures |r| <= |opts|
    ensures forall k :: 0 <= k < |r| ==> IsSuspicious(r[k])
  {
    if opts == [] then []
    else (if opts[0].Some? && IsSuspicious(opts[0].value) then [opts[0].value] else []) + Keep(opts[1..])
  }

  /** The suspicious entries of a log, in file order. */
  function SuspiciousOf(lines: seq<string>): seq<LogEntry> {
    Keep(EntriesOf(lines))
  }

  /** The distinct IPs of a sequence of entries. */
  function IpsOf(entries: seq<LogEntry>): set<string> {
    set e | e in entries :: e.ip
  }

  /** The analysis loop: collects the suspicious entries in order, and their
      IPs in a set. */
  method AnalyzeLogs(lines: seq<string>) returns (entries: seq<LogEntry>, ips: set<string>)
    ensures entries == SuspiciousOf(lines)
    ensures ips == IpsOf(entries)
  {
    ghost var opts := EntriesOf(lines);
    entries, ips := [], {};
    var i := 0;
    assert opts[i..] == opts;
    while i < |lines|
      invariant 0 <= i <= |lines|
      invariant Keep(opts) == entries + Keep(opts[i..])
      invariant ips == IpsOf(entries)
    {
      KeepStep(opts, i);
      var line := Strip(lines[i]);
      if line != [] {
        var entry := ParseLogLine(line);
        assert entry == opts[i];
        if entry.Some? && IsSuspicious(entry.value) {
          assert entries + ([entry.value] + Keep(opts[i + 1..])) == (entries + [entry.value]) + Keep(opts[i + 1..]);
          IpsOfSnoc(entries, entry.value);
          entries := entries + [entry.value];
          ips := ips + {entry.value.ip};
        }
      } else {
        assert opts[i] == None;
      }
      i := i + 1;
    }
    assert opts[i..] == [];
    assert entries + [] == entries;
  }

  /** One step of the analysis loop. */
  lemma KeepStep(opts: seq<Option<LogEntry>>, i: nat)
    requires i < |opts|
    ensures Keep(opts[i..]) == if opts[i].Some? && IsSuspicious(opts[i].value)
                               then [opts[i].value] + Keep(opts[i + 1..])
                               else Keep(opts[i + 1..])
  {
    assert opts[i..][1..] == opts[i + 1..];
    assert opts[i..][0] == opts[i];
    assert [] + Keep(opts[i + 1..]) == Keep(opts[i + 1..]);
  }

  /** Appending an entry adds its IP to the set. */
  lemma IpsOfSnoc(entries: seq<LogEntry>, e: LogEntry)
    ensures IpsOf(entries + [e]) == IpsOf(entries) + {e.ip}
  {
    forall ip | ip in IpsOf(entries) ensures ip in IpsOf(entries + [e]) {
      var x :| x in entries && x.ip == ip;
      assert x in entries + [e];
    }
    assert e in entries + [e];
  }

  /** An entry is kept iff it is suspicious and some line produced it. */
  lemma {:induction false} KeepMembers(opts: seq<Option<LogEntry>>, e: LogEntry)
    ensures e in Keep(opts) <==> IsSuspicious(e) && exists i :: 0 <= i < |opts| && opts[i] == Some(e)
  {
    if opts != [] {
      var tail := opts[1..];
      KeepMembers(tail, e);
      if exists i :: 0 <= i < |tail| && tail[i] == Some(e) {
        var i :| 0 <= i < |tail| && tail[i] == Some(e);
        assert opts[i + 1] == tail[i];
      }
      if exists i :: 0 <= i < |opts| && opts[i] == Some(e) {
        var i :| 0 <= i < |opts| && opts[i] == Some(e);
        if i > 0 {
          assert tail[i - 1] == opts[i];
        }
      }
    }
  }

  /** The entries returned are exactly the suspicious entries parsed from
      non-blank lines of the log. */
  lemma SuspiciousMembers(lines: seq<string>, e: LogEntry)
    ensures e in SuspiciousOf(lines) <==>
            IsSuspicious(e) && exists i :: 0 <= i < |lines| && EntryOf(lines[i]) == Some(e)
  {
    var opts := EntriesOf(lines);
    KeepMembers(opts, e);
    if exists i :: 0 <= i < |lines| && EntryOf(lines[i]) == Some(e) {
      var i :| 0 <= i < |lines| && EntryOf(lines[i]) == Some(e);
      assert opts[i] == Some(e);
    }
  }

  /** The per-line results are kept one at a time in order. */
  lemma {:induction false} KeepAppend(a: seq<Option<LogEntry>>, b: seq<Option<LogEntry>>)
    ensures Keep(a + b) == Keep(a) + Keep(b)
  {
    if a == [] {
      assert a + b == b;
    } else {
      assert (a + b)[0] == a[0];
      assert (a + b)[1..] == a[1..] + b;
      KeepAppend(a[1..], b);
    }
  }

  /** Lines are handled one at a time in file order: the entries of a log made
      of two parts are those of the first part followed by those of the second. */
  lemma SuspiciousAppend(a: seq<string>, b: seq<string>)
    ensures SuspiciousOf(a + b) == SuspiciousOf(a) + SuspiciousOf(b)
  {
    assert EntriesOf(a + b) == EntriesOf(a) + EntriesOf(b);
    KeepAppend(EntriesOf(a), EntriesOf(b));
  }

  /** The IP set is exactly the IPs of the suspicious lines, each once. */
  lemma SuspiciousIps(lines: seq<string>, ip: string)
    ensures ip in IpsOf(SuspiciousOf(lines)) <==>
            exists i :: 0 <= i < |lines| && EntryOf(lines[i]).Some?
                        && EntryOf(lines[i]).value.ip == ip && IsSuspicious(EntryOf(lines[i]).value)
  {
    var s := SuspiciousOf(lines);
    if ip in IpsOf(s) {
      var e :| e in s && e.ip == ip;
      SuspiciousMembers(lines, e);
    }
    if exists i :: 0 <= i < |lines| && EntryOf(lines[i]).Some?
                   && EntryOf(lines[i]).value.ip == ip && IsSuspicious(EntryOf(lines[i]).value) {
      var i :| 0 <= i < |lines| && EntryOf(lines[i]).Some?
               && EntryOf(lines[i]).value.ip == ip && IsSuspicious(EntryOf(lines[i]).value);
      SuspiciousMembers(lines, EntryOf(lines[i]).value);
    }
  }

  /** There are never more distinct IPs than entries. */
  lemma {:induction false} IpsOfBound(entries: seq<LogEntry>)
    ensures |IpsOf(entries)| <= |entries|
  {
    if entries != [] {
      var n := |entries|;
      var front := entries[..n - 1];
      IpsOfBound(front);
      assert entries == front + [entries[n - 1]];
      assert IpsOf(entries) == IpsOf(front) + {entries[n - 1].ip};
    }
  }

  // ---------------------------------------------------------------------
  // Output

  /** Four comma-free parts joined by commas split back into those parts. */
  lemma SplitFour(p: seq<string>)
    requires |p| == 4 && forall k :: 0 <= k < 4 ==> ',' !in p[k]
    ensures Split(p[0] + "," + p[1] + "," + p[2] + "," + p[3], ',') == p
  {
    assert p[2..][1..] == p[3..] && p[1..][1..] == p[2..];
    assert Join(p[3..], ',') == p[3];
    assert Join(p[2..], ',') == p[2] + "," + p[3];
    assert Join(p[1..], ',') == p[1] + "," + (p[2] + "," + p[3]);
    assert Join(p, ',') == p[0] + "," + (p[1] + "," + (p[2] + "," + p[3]));
    assert p[0] + "," + p[1] + "," + p[2] + "," + p[3] == Join(p, ',');
    SplitJoin(p, ',');
  }

  /** One line of the suspicious-activity file; with comma-free fields it
      splits into the entry's fields, each behind the space written after a
      comma. */
  function FormatEntry(e: LogEntry): (line: string)
    ensures ',' !in e.ip && ',' !in e.timestamp && ',' !in e.action && ',' !in e.result ==>
            Split(line, ',') == [e.ip, " " + e.timestamp, " " + e.action, " " + e.result]
  {
    var line := e.ip + ", " + e.timestamp + ", " + e.action + ", " + e.result;
    var p := [e.ip, " " + e.timestamp, " " + e.action, " " + e.result];
    if ',' !in e.ip && ',' !in e.timestamp && ',' !in e.action && ',' !in e.result then
      assert line == p[0] + "," + p[1] + "," + p[2] + "," + p[3];
      SplitFour(p);
      line
    else
      line
  }

  /** Four comma-free parts joined by commas parse to the entry of their
      stripped parts. */
  lemma ParseFields(p: seq<string>)
    requires |p| == 4 && forall k :: 0 <= k < 4 ==> ',' !in p[k]
    ensures ParseLogLine(p[0] + "," + p[1] + "," + p[2] + "," + p[3])
            == Some(LogEntry(Strip(p[0]), Strip(p[1]), Strip(p[2]), Strip(p[3])))
  {
    SplitFour(p);
  }

  /** The padding around each field is what the parser strips away. */
  lemma ParsePaddedParts(e: LogEntry, w: seq<string>)
    requires ',' !in e.ip && ',' !in e.timestamp && ',' !in e.action && ',' !in e.result
    requires |w| == 8 && forall k :: 0 <= k < 8 ==> ',' !in w[k]
    ensures ParseLogLine(w[0] + e.ip + w[1] + "," + w[2] + e.timestamp + w[3] + ","
                         + w[4] + e.action + w[5] + "," + w[6] + e.result + w[7])
            == Some(LogEntry(Strip(w[0] + e.ip + w[1]), Strip(w[2] + e.timestamp + w[3]),
                             Strip(w[4] + e.action + w[5]), Strip(w[6] + e.result + w[7])))
  {
    var p := [w[0] + e.ip + w[1], w[2] + e.timestamp + w[3], w[4] + e.action + w[5], w[6] + e.result + w[7]];
    assert w[0] + e.ip + w[1] + "," + w[2] + e.timestamp + w[3] + ","
           + w[4] + e.action + w[5] + "," + w[6] + e.result + w[7]
           == p[0] + "," + p[1] + "," + p[2] + "," + p[3];
    ParseFields(p);
  }

  /** The parser reads four clean fields back out of a line however much
      whitespace surrounds each of them. */
  lemma ParsePaddedLine(e: LogEntry, w: seq<string>)
    requires CleanEntry(e)
    requires |w| == 8 && forall k :: 0 <= k < 8 ==> AllSpace(w[k])
    ensures ParseLogLine(w[0] + e.ip + w[1] + "," + w[2] + e.timestamp + w[3] + ","
                         + w[4] + e.action + w[5] + "," + w[6] + e.result + w[7]) == Some(e)
  {
    forall k | 0 <= k < 8 ensures ',' !in w[k] {
      assert !IsSpace(',');
    }
    ParsePaddedParts(e, w);
    StripPadded(w[0], e.ip, w[1]);
    StripPadded(w[2], e.timestamp, w[3]);
    StripPadded(w[4], e.action, w[5]);
    StripPadded(w[6], e.result, w[7]);
  }

  /** A written line splits back into the entry's fields, each behind the
      space the writer puts after a comma. */
  lemma FormatParts(e: LogEntry)
    requires ',' !in e.ip && ',' !in e.timestamp && ',' !in e.action && ',' !in e.result
    ensures ParseLogLine(FormatEntry(e))
            == Some(LogEntry(Strip(e.ip), Strip(" " + e.timestamp), Strip(" " + e.action), Strip(" " + e.result)))
  {
    var p := [e.ip, " " + e.timestamp, " " + e.action, " " + e.result];
    assert FormatEntry(e) == p[0] + "," + p[1] + "," + p[2] + "," + p[3];
    ParseFields(p);
  }

  /** Round trip: an entry written to the suspicious-activity file parses back
      to itself. */
  lemma FormatRoundTrip(e: LogEntry)
    requires CleanEntry(e)
    ensures ParseLogLine(FormatEntry(e)) == Some(e)
  {
    FormatParts(e);
    StripTrimmed(e.ip);
    StripPadded(" ", e.timestamp, "");
    assert " " + e.timestamp + "" == " " + e.timestamp;
    StripPadded(" ", e.action, "");
    assert " " + e.action + "" == " " + e.action;
    StripPadded(" ", e.result, "");
    assert " " + e.result + "" == " " + e.result;
  }

  /** A written line with a non-empty result has nothing to strip. */
  lemma FormatTrimmed(e: LogEntry)
    requires Trimmed(e.ip) && Trimmed(e.result) && e.result != []
    ensures Trimmed(FormatEntry(e)) && FormatEntry(e) != []
  {
    var line := FormatEntry(e);
    assert !IsSpace(',');
    assert line[|line| - 1] == e.result[|e.result| - 1];
    assert line[0] == if e.ip != [] then e.ip[0] else ',';
  }

  /** With an empty result the writer's line ends in a space after the last
      comma, and stripping removes just that space. */
  lemma StripEmptyResult(e: LogEntry)
    requires Trimmed(e.ip) && e.result == []
    ensures Strip(FormatEntry(e)) == e.ip + "," + " " + e.timestamp + "," + " " + e.action + ","
  {
    var x := e.ip + "," + " " + e.timestamp + "," + " " + e.action + ",";
    assert FormatEntry(e) == "" + x + " ";
    assert !IsSpace(',') && IsSpace(' ');
    assert x[|x| - 1] == ',';
    assert x[0] == if e.ip != [] then e.ip[0] else ',';
    StripPadded("", x, " ");
  }

  /** What is left after that strip splits into the same four parts as
      the full line. */
  lemma EmptyResultParts(e: LogEntry)
    requires ',' !in e.ip && ',' !in e.timestamp && ',' !in e.action && e.result == []
    ensures ParseLogLine(e.ip + "," + " " + e.timestamp + "," + " " + e.action + ",")
            == Some(LogEntry(Strip(e.ip), Strip(" " + e.timestamp), Strip(" " + e.action), Strip([])))
  {
    var p := [e.ip, " " + e.timestamp, " " + e.action, []];
    assert e.ip + "," + " " + e.timestamp + "," + " " + e.action + ","
           == p[0] + "," + p[1] + "," + p[2] + "," + p[3];
    ParseFields(p);
  }

  /** ... and so parses to the entry itself. */
  lemma ParseEmptyResult(e: LogEntry)
    requires CleanEntry(e) && e.result == []
    ensures ParseLogLine(e.ip + "," + " " + e.timestamp + "," + " " + e.action + ",") == Some(e)
  {
    EmptyResultParts(e);
    StripTrimmed(e.ip);
    StripTrimmed([]);
    StripPadded(" ", e.timestamp, "");
    assert " " + e.timestamp + "" == " " + e.timestamp;
    StripPadded(" ", e.action, "");
    assert " " + e.action + "" == " " + e.action;
  }

  /** A line of the output file, read back by the analysis, gives the entry
      it was written from. */
  lemma EntryOfFormat(e: LogEntry)
    requires CleanEntry(e)
    ensures EntryOf(FormatEntry(e)) == Some(e)
  {
    if e.result != [] {
      FormatTrimmed(e);
      StripTrimmed(FormatEntry(e));
      FormatRoundTrip(e);
    } else {
      StripEmptyResult(e);
      ParseEmptyResult(e);
    }
  }

  /** Every entry the analysis returns has clean fields. */
  lemma SuspiciousClean(lines: seq<string>)
    ensures forall k :: 0 <= k < |SuspiciousOf(lines)| ==> CleanEntry(SuspiciousOf(lines)[k])
  {
    var opts := EntriesOf(lines);
    forall k | 0 <= k < |SuspiciousOf(lines)| ensures CleanEntry(SuspiciousOf(lines)[k]) {
      var e := SuspiciousOf(lines)[k];
      KeepMembers(opts, e);
      var i :| 0 <= i < |opts| && opts[i] == Some(e);
      ParsedIsClean(Strip(lines[i]));
    }
  }

  /** The suspicious-activity file: one formatted line per entry, in order. */
  function FormatAll(entries: seq<LogEntry>): (out: seq<string>)
    ensures |out| == |entries|
  {
    seq(|entries|, k requires 0 <= k < |entries| => FormatEntry(entries[k]))
  }

  /** Writes the suspicious entries of a log, one line each, in the order
      the analysis found them. */
  method SaveSuspiciousActivity(lines: seq<string>) returns (out: seq<string>)
    ensures out == FormatAll(SuspiciousOf(lines))
  {
    var entries, _ := AnalyzeLogs(lines);
    out := [];
    for k := 0 to |entries|
      invariant out == FormatAll(entries[..k])
    {
      assert entries[..k + 1] == entries[..k] + [entries[k]];
      out := out + [FormatEntry(entries[k])];
    }
    assert entries[..|entries|] == entries;
  }

  function Somes(entries: seq<LogEntry>): (opts: seq<Option<LogEntry>>)
    ensures |opts| == |entries|
  {
    seq(|entries|, k requires 0 <= k < |entries| => Some(entries[k]))
  }

  /** When every line yields its suspicious entry, all of them are kept. */
  lemma {:induction false} KeepSomes(entries: seq<LogEntry>)
    requires forall k :: 0 <= k < |entries| ==> IsSuspicious(entries[k])
    ensures Keep(Somes(entries)) == entries
  {
    if entries != [] {
      assert Somes(entries)[1..] == Somes(entries[1..]);
      KeepSomes(entries[1..]);
      assert entries == [entries[0]] + entries[1..];
    }
  }

  /** A log whose every line holds a suspicious entry yields exactly those
      entries, in order. */
  lemma SuspiciousOfEntries(lines: seq<string>, entries: seq<LogEntry>)
    requires |lines| == |entries|
    requires forall k :: 0 <= k < |lines| ==> EntryOf(lines[k]) == Some(entries[k]) && IsSuspicious(entries[k])
    ensures SuspiciousOf(lines) == entries
  {
    assert EntriesOf(lines) == Somes(entries);
    KeepSomes(entries);
  }

  /** Analysing written lines of suspicious, clean entries gives the entries
      back. */
  lemma ReanalyzeFormatted(entries: seq<LogEntry>)
    requires forall k :: 0 <= k < |entries| ==> IsSuspicious(entries[k]) && CleanEntry(entries[k])
    ensures SuspiciousOf(FormatAll(entries)) == entries
  {
    var out := FormatAll(entries);
    forall k | 0 <= k < |out| ensures EntryOf(out[k]) == Some(entries[k]) && IsSuspicious(entries[k]) {
      EntryOfFormat(entries[k]);
    }
    SuspiciousOfEntries(out, entries);
  }

  /** The saved suspicious-activity file, analysed again, gives the same
      entries: the output is a faithful record of what was found. */
  lemma SavedActivityReanalyzes(lines: seq<string>)
    ensures SuspiciousOf(FormatAll(SuspiciousOf(lines))) == SuspiciousOf(lines)
  {
    SuspiciousClean(lines);
    ReanalyzeFormatted(SuspiciousOf(lines));
  }

  /** Writes each distinct suspicious IP once; set order is left open. */
  method SaveSuspiciousIps(lines: seq<string>) returns (out: seq<string>)
    ensures forall ip :: ip in out <==> ip in IpsOf(SuspiciousOf(lines))
    ensures forall i, j :: 0 <= i < j < |out| ==> out[i] != out[j]
    ensures |out| == |IpsOf(SuspiciousOf(lines))|
  {
    var _, ips := AnalyzeLogs(lines);
    var rest := ips;
    out := [];
    while rest != {}
      invariant rest <= ips
      invariant forall ip :: ip in out <==> ip in ips && ip !in rest
      invariant forall i, j :: 0 <= i < j < |out| ==> out[i] != out[j]
      invariant |out| + |rest| == |ips|
      decreases |rest|
    {
      var ip :| ip in rest;
      out := out + [ip];
      rest := rest - {ip};
    }
  }
}
