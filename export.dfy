/** The rules of `exportLogs` (Logger.js:369-592): which day buckets are exported, what
    an exported day contains, how each entry becomes a line of `log.txt`, and where a
    non-interactive export goes. */
module Export {
  import opened Wrappers
  import opened Strings
  import opened Threads
  import opened Entries

  // ---------------------------------------------------------------------------
  // parseLogType
  // ---------------------------------------------------------------------------

  const KnownKinds: set<string> := {"log", "warn", "error", "dump"}

  /** The `en` and `emoji` rows of `logTypeTable`. */
  function LogTypeTable(emojify: bool): (t: map<string, string>)
    ensures t.Keys == KnownKinds
  {
    if emojify then
      map["log" := "\U{2709}\U{FE0F}", "warn" := "\U{26A0}\U{FE0F}", "error" := "\U{203C}\U{FE0F}", "dump" := "\U{1F4E6}"]
    else
      map["log" := "L", "warn" := "W", "error" := "E", "dump" := "D"]
  }

  /** `parseLogType`: the table's label for a known kind, any other kind unchanged, and
      `"?"` when the entry has no kind. */
  function ParseLogType(kind: Option<string>, emojify: bool): string
  {
    match kind
    case None => "?"
    case Some(k) => if k in LogTypeTable(emojify) then LogTypeTable(emojify)[k] else k
  }

  /** Reading a label back: the known kind it stands for, if any. */
  function KindOfLabel(tag: string, emojify: bool): Option<string>
  {
    var t := LogTypeTable(emojify);
    if exists k :: k in t && t[k] == tag then
      var k :| k in t && t[k] == tag; Some(k)
    else None
  }

  /** Distinct known kinds get distinct labels, so the label of a known kind gives the kind back. */
  lemma ParseLogTypeKnown(kind: string, emojify: bool)
    requires kind in KnownKinds
    ensures KindOfLabel(ParseLogType(Some(kind), emojify), emojify) == Some(kind)
  {
    var t := LogTypeTable(emojify);
    assert forall a, b :: a in t && b in t && a != b ==> t[a] != t[b];
  }

  /** Kinds outside the table pass through, and a missing kind prints as `"?"`. */
  lemma ParseLogTypeFallback(kind: Option<string>, emojify: bool)
    ensures kind.None? ==> ParseLogType(kind, emojify) == "?"
    ensures kind.Some? && kind.value !in KnownKinds ==> ParseLogType(kind, emojify) == kind.value
    ensures kind.Some? && kind.value in KnownKinds ==> ParseLogType(kind, emojify) in LogTypeTable(emojify).Values
  {
  }

  lemma ParseLogTypeExamples()
    ensures ParseLogType(Some("warn"), false) == "W"
    ensures ParseLogType(Some("dump"), true) == "\U{1F4E6}"
    ensures ParseLogType(Some("custom"), false) == "custom"
    ensures ParseLogType(None, true) == "?"
  {
  }

  // ---------------------------------------------------------------------------
  // Export lines
  // ---------------------------------------------------------------------------

  /** One line of `log.txt`: `${timeStamp}[${logType}]: ${logContent}`. */
  function ExportLine(ts: string, tag: string, content: string): string
  {
    ts + "[" + tag + "]: " + content
  }

  /** The first position of `c` in `s`. */
  function IndexOf(s: string, c: char): (r: Option<nat>)
    ensures r.Some? ==> r.value < |s| && s[r.value] == c && c !in s[..r.value]
    ensures r.None? ==> c !in s
  {
    if |s| == 0 then None
    else if s[0] == c then Some(0)
    else
      var r := IndexOf(s[1..], c);
      if r.Some? then
        assert s[..r.value + 1] == [s[0]] + s[1..][..r.value];
        Some(r.value + 1)
      else
        assert s == [s[0]] + s[1..];
        None
  }

  /** Splitting a line back into its timestamp (of known length), label and content. */
  function ParseExportLine(line: string, tsLength: nat): Option<(string, string, string)>
  {
    if |line| <= tsLength || line[tsLength] != '[' then None
    else
      var rest := line[tsLength + 1..];
      match IndexOf(rest, ']')
      case None => None
      case Some(i) =>
        if i + 3 <= |rest| && rest[i + 1..i + 3] == ": " then Some((line[..tsLength], rest[..i], rest[i + 3..]))
        else None
  }

  lemma IndexOfAfter(tag: string, tail: string)
    requires ']' !in tag
    ensures IndexOf(tag + "]" + tail, ']') == Some(|tag|)
  {
    var s := tag + "]" + tail;
    assert s[|tag|] == ']';
    assert ']' in s;
    assert forall i :: 0 <= i < |tag| ==> s[i] == tag[i];
    assert forall j :: |tag| < j <= |s| ==> s[..j][|tag|] == ']';
  }

  lemma RestSplits(tag: string, content: string)
    requires ']' !in tag
    ensures var rest := tag + "]" + (": " + content);
      && IndexOf(rest, ']') == Some(|tag|) && |tag| + 3 <= |rest|
      && rest[|tag| + 1..|tag| + 3] == ": " && rest[..|tag|] == tag && rest[|tag| + 3..] == content
  {
    IndexOfAfter(tag, ": " + content);
    var rest := tag + "]" + (": " + content);
    assert rest[|tag| + 1..] == ": " + content;
  }

  /** A line whose label has no `]` splits back into the parts it was made from. */
  lemma ExportLineRoundTrip(ts: string, tag: string, content: string)
    requires ']' !in tag
    ensures ParseExportLine(ExportLine(ts, tag, content), |ts|) == Some((ts, tag, content))
  {
    var line := ExportLine(ts, tag, content);
    var rest := tag + "]" + (": " + content);
    assert line == ts + "[" + rest;
    assert line[|ts|] == '[';
    assert line[|ts| + 1..] == rest;
    assert line[..|ts|] == ts;
    RestSplits(tag, content);
  }

  /** The labels of the known kinds, plain or emoji, contain no `]`. */
  lemma LabelsHaveNoBracket(kind: string, emojify: bool)
    requires kind in KnownKinds
    ensures ']' !in ParseLogType(Some(kind), emojify)
  {
  }

  /** The text of one entry as `processLog` produces it. */
  function EntryLine(logs: map<string, LogFile>, name: string, reformat: string -> string, emojify: bool): string
  {
    var entry := if name in logs then logs[name] else LogFile("", None);
    ExportLine(reformat(name), ParseLogType(entry.kind, emojify), entry.content)
  }

  /** An entry line of a known kind splits back into the reformatted name, the label and the text. */
  lemma EntryLineRoundTrip(logs: map<string, LogFile>, name: string, reformat: string -> string, emojify: bool)
    requires name in logs && logs[name].kind.Some? && logs[name].kind.value in KnownKinds
    ensures ParseExportLine(EntryLine(logs, name, reformat, emojify), |reformat(name)|)
         == Some((reformat(name), ParseLogType(logs[name].kind, emojify), logs[name].content))
    ensures KindOfLabel(ParseLogType(logs[name].kind, emojify), emojify) == logs[name].kind
  {
    LabelsHaveNoBracket(logs[name].kind.value, emojify);
    ExportLineRoundTrip(reformat(name), ParseLogType(logs[name].kind, emojify), logs[name].content);
    ParseLogTypeKnown(logs[name].kind.value, emojify);
  }

  /** `processLog` as a task for the scheduler: it always resolves with the entry's line, and
      registers a cancel callback (which has nothing left to stop once the entry is read). */
  function LogTask(logs: map<string, LogFile>, reformat: string -> string, emojify: bool): string -> Task<string>
  {
    (name: string) => Task(Resolved(Some(EntryLine(logs, name, reformat, emojify))), Some(0))
  }

  /** The lines of `log.txt`, one for each entry name in the order given. */
  function LogLines(logs: map<string, LogFile>, names: seq<string>, reformat: string -> string, emojify: bool): (lines: seq<string>)
    ensures |lines| == |names|
    ensures forall i :: 0 <= i < |names| ==> lines[i] == EntryLine(logs, names[i], reformat, emojify)
  {
    seq(|names|, i requires 0 <= i < |names| => EntryLine(logs, names[i], reformat, emojify))
  }

  /** Each line of `log.txt` for an entry of a known kind splits back into the reformatted
      name, the kind's label and the entry's text, and the label gives the kind back. */
  lemma LogLinesRoundTrip(logs: map<string, LogFile>, names: seq<string>, reformat: string -> string, emojify: bool)
    requires forall n :: n in names ==> n in logs && logs[n].kind.Some? && logs[n].kind.value in KnownKinds
    ensures var lines := LogLines(logs, names, reformat, emojify);
      forall i :: 0 <= i < |names| ==>
        && ParseExportLine(lines[i], |reformat(names[i])|)
           == Some((reformat(names[i]), ParseLogType(logs[names[i]].kind, emojify), logs[names[i]].content))
        && KindOfLabel(ParseLogType(logs[names[i]].kind, emojify), emojify) == logs[names[i]].kind
  {
    forall i | 0 <= i < |names|
      ensures ParseExportLine(LogLines(logs, names, reformat, emojify)[i], |reformat(names[i])|)
           == Some((reformat(names[i]), ParseLogType(logs[names[i]].kind, emojify), logs[names[i]].content))
      ensures KindOfLabel(ParseLogType(logs[names[i]].kind, emojify), emojify) == logs[names[i]].kind
    {
      EntryLineRoundTrip(logs, names[i], reformat, emojify);
    }
  }

  /** No label of a known kind contains a newline. */
  lemma LabelsHaveNoNewline(kind: string, emojify: bool)
    requires kind in KnownKinds
    ensures '\n' !in ParseLogType(Some(kind), emojify)
  {
  }

  /** An entry whose reformatted name, kind and text hold no newline gives a line without one. */
  lemma EntryLineNoNewline(logs: map<string, LogFile>, name: string, reformat: string -> string, emojify: bool)
    requires name in logs && '\n' !in reformat(name) && '\n' !in logs[name].content
    requires logs[name].kind.Some? ==> '\n' !in logs[name].kind.value
    ensures '\n' !in EntryLine(logs, name, reformat, emojify)
  {
    var tag := ParseLogType(logs[name].kind, emojify);
    if logs[name].kind.Some? && logs[name].kind.value in KnownKinds {
      LabelsHaveNoNewline(logs[name].kind.value, emojify);
    }
    assert '\n' !in tag;
    assert EntryLine(logs, name, reformat, emojify) == reformat(name) + "[" + tag + "]: " + logs[name].content;
  }

  /** Running `processLog` over the sorted names on two lanes and merging the lanes gives
      the lines in sorted order: the scheduler drops and reorders nothing. */
  lemma LogLinesThroughLanes(logs: map<string, LogFile>, names: seq<string>, reformat: string -> string, emojify: bool)
    ensures RoundRobin(Partition(Results(LogTask(logs, reformat, emojify), names), 2), 0) == LogLines(logs, names, reformat, emojify)
    ensures TakeUntilNone(Results(LogTask(logs, reformat, emojify), names)) == LogLines(logs, names, reformat, emojify)
  {
    var rs := Results(LogTask(logs, reformat, emojify), names);
    assert forall i :: 0 <= i < |rs| ==> rs[i] == Some(EntryLine(logs, names[i], reformat, emojify));
    RoundRobinPartitionAllPresent(rs, 2);
    RoundRobinPartition(rs, 2);
  }

  // ---------------------------------------------------------------------------
  // One day
  // ---------------------------------------------------------------------------

  /** What listing a missing `logs` directory raises; it rejects the whole export. */
  const MissingLogsDirectory := "The logs directory of a day does not exist."
  const LogFileName := "log.txt"

  /** The bucket's files whose names start with `"dump-"`. */
  function Dumps(day: DayDir): (d: map<string, string>)
    ensures forall n :: n in d <==> n in day.files && StartsWith(n, "dump-")
    ensures forall n :: n in d ==> d[n] == day.files[n]
  {
    map n | n in day.files && StartsWith(n, "dump-") :: day.files[n]
  }

  /** A file `dump` writes into a bucket is exported under its own name with its content,
      beside the bucket's earlier dumps; `log.txt` is never a dump, so it cannot replace one. */
  lemma DumpIsExported(root: Root, today: string, date: string, ext: string, content: string)
    ensures var before := if today in root then root[today] else DayDir(None, map[]);
      var after := WithFile(root, today, DumpName(date, ext), content)[today];
      && Dumps(after) == Dumps(before)[DumpName(date, ext) := content]
      && LogFileName !in Dumps(after)
  {
    var before := if today in root then root[today] else DayDir(None, map[]);
    var name := DumpName(date, ext);
    var after := WithFile(root, today, name, content)[today];
    DumpNameIsDump(date, ext);
    assert after.files == before.files[name := content];
    assert !StartsWith(LogFileName, "dump-") by {
      assert LogFileName[..5][0] == 'l';
    }
    assert Dumps(after).Keys == Dumps(before)[name := content].Keys;
  }

  /** `processDayPaths`: no logs directory is an error; a day with neither dumps nor entries
      is skipped; otherwise the exported day holds the dumps and `log.txt`, the lines of
      the entries in ascending name order joined with newlines. */
  function DayExport(day: DayDir, reformat: string -> string, emojify: bool): Result<Option<map<string, string>>, string>
  {
    if day.logs.None? then Failure(MissingLogsDirectory)
    else if |day.logs.value| == 0 && |Dumps(day)| == 0 then Success(None)
    else
      var names := SortedListing(day.logs.value.Keys);
      Success(Some(Dumps(day)[LogFileName := Join(LogLines(day.logs.value, names, reformat, emojify), "\n")]))
  }

  /** What an exported day holds: every dump under its own name with its content, and
      `log.txt` with one line per entry in ascending name order. */
  lemma DayExportContents(day: DayDir, reformat: string -> string, emojify: bool)
    requires day.logs.Some? && (|day.logs.value| > 0 || |Dumps(day)| > 0)
    ensures DayExport(day, reformat, emojify).Success? && DayExport(day, reformat, emojify).value.Some?
    ensures var out := DayExport(day, reformat, emojify).value.value;
      var names := SortedListing(day.logs.value.Keys);
      && out.Keys == Dumps(day).Keys + {LogFileName}
      && (forall n :: n in Dumps(day) ==> out[n] == day.files[n])
      && out[LogFileName] == Join(LogLines(day.logs.value, names, reformat, emojify), "\n")
      && StrictlySorted(names)
      && (forall n :: n in names <==> n in day.logs.value)
  {
    assert !StartsWith(LogFileName, "dump-") by {
      assert LogFileName[..5][0] == 'l';
    }
    var names := SortedListing(day.logs.value.Keys);
    var dumps := Dumps(day);
    var out := dumps[LogFileName := Join(LogLines(day.logs.value, names, reformat, emojify), "\n")];
    assert DayExport(day, reformat, emojify) == Success(Some(out));
    assert LogFileName !in dumps;
    forall n | n in dumps ensures out[n] == day.files[n] {
      assert n != LogFileName;
    }
  }

  /** When no entry's reformatted name, kind or text holds a newline, `log.txt` of an exported
      day with entries cuts at its newlines into exactly one line per entry, in ascending
      name order. */
  lemma DayExportLogText(day: DayDir, reformat: string -> string, emojify: bool)
    requires day.logs.Some? && |day.logs.value| > 0
    requires forall n :: n in day.logs.value ==>
      && '\n' !in reformat(n) && '\n' !in day.logs.value[n].content
      && (day.logs.value[n].kind.Some? ==> '\n' !in day.logs.value[n].kind.value)
    ensures DayExport(day, reformat, emojify).Success? && DayExport(day, reformat, emojify).value.Some?
    ensures var names := SortedListing(day.logs.value.Keys);
      SplitOn(DayExport(day, reformat, emojify).value.value[LogFileName], '\n')
        == LogLines(day.logs.value, names, reformat, emojify)
    ensures |SortedListing(day.logs.value.Keys)| == |day.logs.value|
  {
    DayExportContents(day, reformat, emojify);
    var logs := day.logs.value;
    var names := SortedListing(logs.Keys);
    var lines := LogLines(logs, names, reformat, emojify);
    SortedListingSize(logs.Keys);
    forall i | 0 <= i < |lines| ensures '\n' !in lines[i] {
      EntryLineNoNewline(logs, names[i], reformat, emojify);
    }
    JoinSplitRoundTrip(lines, '\n');
  }

  /** A day with a logs directory but nothing in it and no dumps exports nothing, and a day
      without a logs directory fails the export. */
  lemma DayExportSkipsAndFails(day: DayDir, reformat: string -> string, emojify: bool)
    ensures day.logs.None? <==> DayExport(day, reformat, emojify).Failure?
    ensures DayExport(day, reformat, emojify).Failure? ==> DayExport(day, reformat, emojify).error == MissingLogsDirectory
    ensures DayExport(day, reformat, emojify) == Success(None) <==>
      day.logs.Some? && |day.logs.value| == 0 && |Dumps(day)| == 0
  {
  }

  // ---------------------------------------------------------------------------
  // Which days, and where
  // ---------------------------------------------------------------------------

  /** `pathsToCopy`: the current buckets that are today or are not yet in the destination. */
  function PathsToCopy(current: set<string>, today: string, alreadyExported: set<string>): set<string>
  {
    set d | d in current && (d == today || d !in alreadyExported)
  }

  /** The selection is the current buckets not yet exported, plus today whenever today is a
      current bucket, whether or not it was exported before. */
  lemma PathsToCopySpec(current: set<string>, today: string, alreadyExported: set<string>)
    ensures PathsToCopy(current, today, alreadyExported)
         == (current - alreadyExported) + (if today in current then {today} else {})
    ensures PathsToCopy(current, today, alreadyExported) <= current
  {
  }

  /** The destination directory of the logger's exports: day bucket name to exported files. */
  type ExportTree = map<string, map<string, string>>

  /** `processDayPaths` on the buckets of `root`, as the work function of the scheduler. */
  function DayResults(root: Root, reformat: string -> string, emojify: bool): string -> Result<Option<map<string, string>>, string>
  {
    (d: string) => if d in root then DayExport(root[d], reformat, emojify) else Failure(MissingLogsDirectory)
  }

  /** The files a day contributes: none when it is skipped or fails. */
  function OutOf(r: Result<Option<map<string, string>>, string>): Option<map<string, string>>
  {
    if r.Success? then r.value else None
  }

  /** The destination after exporting the selected days, given what each day yields:
      a skipped day leaves the destination as it was; an exported day's files are written
      over the ones there. */
  function Exported(dest: ExportTree, results: string -> Result<Option<map<string, string>>, string>, selected: set<string>): ExportTree
  {
    map d | d in dest.Keys + selected && (d in dest || (d in selected && OutOf(results(d)).Some?)) ::
      if d in selected && OutOf(results(d)).Some? then (if d in dest then dest[d] else map[]) + OutOf(results(d)).value
      else dest[d]
  }

  /** Whether some selected day fails to export. */
  predicate SomeDayFails(results: string -> Result<Option<map<string, string>>, string>, selected: set<string>)
  {
    exists d :: d in selected && results(d).Failure?
  }

  /** Exporting nothing leaves the destination as it was. */
  lemma ExportedNone(dest: ExportTree, results: string -> Result<Option<map<string, string>>, string>)
    ensures Exported(dest, results, {}) == dest
  {
  }

  /** The destination after writing one day's export `out` over it, if there is one. */
  function AddDay(tree: ExportTree, d: string, out: Option<map<string, string>>): ExportTree
  {
    if out.None? then tree else tree[d := (if d in tree then tree[d] else map[]) + out.value]
  }

  /** Exporting one more day changes only that day's entry, and only when the day is not skipped. */
  lemma ExportedAddDay(dest: ExportTree, results: string -> Result<Option<map<string, string>>, string>, done: set<string>, d: string)
    requires d !in done
    ensures Exported(dest, results, done + {d}) == AddDay(Exported(dest, results, done), d, OutOf(results(d)))
  {
    var before := Exported(dest, results, done);
    var after := Exported(dest, results, done + {d});
    var expected := AddDay(before, d, OutOf(results(d)));
    assert d in before ==> before[d] == dest[d];
    forall k | k != d
      ensures (k in after <==> k in before) && (k in after ==> after[k] == before[k])
    {
    }
    assert after.Keys == expected.Keys;
  }

  /** The destination after writing each day of `days` over it in turn. */
  function ExportSeq(dest: ExportTree, results: string -> Result<Option<map<string, string>>, string>, days: seq<string>): ExportTree
  {
    if |days| == 0 then dest
    else AddDay(ExportSeq(dest, results, days[..|days| - 1]), days[|days| - 1], OutOf(results(days[|days| - 1])))
  }

  predicate Distinct(days: seq<string>)
  {
    forall i, j :: 0 <= i < j < |days| ==> days[i] != days[j]
  }

  /** Writing distinct days one after another gives the same destination in any order. */
  lemma {:induction false} ExportSeqSet(dest: ExportTree, results: string -> Result<Option<map<string, string>>, string>, days: seq<string>)
    requires Distinct(days)
    ensures ExportSeq(dest, results, days) == Exported(dest, results, set x | x in days)
  {
    if |days| == 0 {
      assert (set x | x in days) == {};
      ExportedNone(dest, results);
    } else {
      var init := days[..|days| - 1];
      var last := days[|days| - 1];
      ExportSeqSet(dest, results, init);
      assert (set x | x in days) == (set x | x in init) + {last} by {
        assert days == init + [last];
      }
      assert last !in (set x | x in init);
      ExportedAddDay(dest, results, (set x | x in init), last);
    }
  }

  lemma ExportSeqAll(dest: ExportTree, results: string -> Result<Option<map<string, string>>, string>, days: seq<string>, selected: set<string>)
    requires Distinct(days)
    requires forall x :: x in selected <==> x in days
    ensures ExportSeq(dest, results, days) == Exported(dest, results, selected)
  {
    ExportSeqSet(dest, results, days);
    assert (set x | x in days) == selected;
  }

  /** Writing the same files twice is writing them once. */
  lemma OverwriteTwice(a: map<string, string>, b: map<string, string>)
    ensures (a + b) + b == a + b
  {
  }

  /** A second export with no new writes in between selects only days the first one
      selected, and leaves the destination as the first one left it: past days already
      exported are not selected again, empty days are skipped again, and today's files
      are written over with the same contents. */
  lemma ExportedIdempotent(dest: ExportTree, results: string -> Result<Option<map<string, string>>, string>,
                           current: set<string>, today: string)
    ensures var tree := Exported(dest, results, PathsToCopy(current, today, dest.Keys));
      && PathsToCopy(current, today, tree.Keys) <= PathsToCopy(current, today, dest.Keys)
      && Exported(tree, results, PathsToCopy(current, today, tree.Keys)) == tree
  {
    var sel1 := PathsToCopy(current, today, dest.Keys);
    var tree := Exported(dest, results, sel1);
    var sel2 := PathsToCopy(current, today, tree.Keys);
    var again := Exported(tree, results, sel2);
    assert dest.Keys <= tree.Keys;
    forall d | d in again.Keys + tree.Keys
      ensures d in again && d in tree && again[d] == tree[d]
    {
      if d in sel2 && OutOf(results(d)).Some? {
        assert d in sel1;
        OverwriteTwice(if d in dest then dest[d] else map[], OutOf(results(d)).value);
      }
    }
    assert again.Keys == tree.Keys;
  }

  /** `createThreads(pathsToCopy, processDayPaths, 2)` with the export step after it, one
      day at a time: the destination with every selected day written into it, or the
      error of a day that cannot be exported. */
  method ExportEach(dest: ExportTree, results: string -> Result<Option<map<string, string>>, string>, selected: set<string>)
    returns (r: Result<ExportTree, string>)
    ensures r.Failure? <==> SomeDayFails(results, selected)
    ensures r.Failure? ==> exists d :: d in selected && results(d) == Failure(r.error)
    ensures r.Success? ==> r.value == Exported(dest, results, selected)
  {
    var tree := dest;
    var rest := selected;
    ghost var order: seq<string> := [];
    while rest != {}
      invariant forall x :: x in selected <==> x in rest || x in order
      invariant forall x :: x in order ==> x !in rest
      invariant Distinct(order)
      invariant tree == ExportSeq(dest, results, order)
      invariant forall d :: d in order ==> results(d).Success?
      decreases |rest|
    {
      var d :| d in rest;
      var out := results(d);
      if out.Failure? {
        return Failure(out.error);
      }
      tree := AddDay(tree, d, out.value);
      order := order + [d];
      rest := rest - {d};
    }
    ExportSeqAll(dest, results, order, selected);
    r := Success(tree);
  }

  const InvalidPathMessage := "Provided path is not a valid directory"
  const NoPathMessage := "No path provided. Either provide a path as parameter, or enable iCloud for default export path"

  /** The non-interactive branch of `exportLogs`: where the export goes, or why it is rejected.
      `isDirectory` of a missing path is false. */
  function Destination(exportPath: Option<string>, defaultPath: Option<string>, isDirectory: string -> bool): Result<string, string>
  {
    if exportPath.None? && defaultPath.Some? then Success(defaultPath.value)
    else if exportPath.Some? && isDirectory(exportPath.value) then Success(exportPath.value)
    else if exportPath.Some? then Failure(InvalidPathMessage)
    else Failure(NoPathMessage)
  }

  /** The decision table: a given directory wins, the iCloud default is used only when no
      path is given, a given path that is not a directory is rejected even when the default
      exists, and with neither the export is rejected. */
  lemma DestinationTable(exportPath: Option<string>, defaultPath: Option<string>, isDirectory: string -> bool, p: string)
    ensures Destination(exportPath, defaultPath, isDirectory) == Success(p) <==>
      (exportPath == None && defaultPath == Some(p)) || (exportPath == Some(p) && isDirectory(p))
    ensures Destination(exportPath, defaultPath, isDirectory) == Failure(InvalidPathMessage) <==>
      exportPath.Some? && !isDirectory(exportPath.value)
    ensures Destination(exportPath, defaultPath, isDirectory) == Failure(NoPathMessage) <==>
      exportPath.None? && defaultPath.None?
  {
  }

  /** The first steps of an interactive export: a refusal, a confirmation for a given
      directory, or the menu of destinations to choose from. */
  datatype InteractivePlan = Confirm(path: string) | Choose(actions: seq<string>)

  const NotInAppMessage := "Interactive export must run inside the app."

  function InteractiveStart(runsInApp: bool, exportPath: Option<string>, defaultPath: Option<string>, isDirectory: string -> bool)
    : Result<InteractivePlan, string>
  {
    if !runsInApp then Failure(NotInAppMessage)
    else if exportPath.Some? && !isDirectory(exportPath.value) then Failure(InvalidPathMessage)
    else if exportPath.Some? then Success(Confirm(exportPath.value))
    else Success(Choose(["Select location"] + (if defaultPath.Some? then ["Use default location"] else [])))
  }

  /** Outside the app nothing is offered; inside it, the menu offers the iCloud default
      exactly when it exists, and an invalid path is refused as in the non-interactive case. */
  lemma InteractiveStartSpec(runsInApp: bool, exportPath: Option<string>, defaultPath: Option<string>, isDirectory: string -> bool)
    ensures !runsInApp <==> InteractiveStart(runsInApp, exportPath, defaultPath, isDirectory) == Failure(NotInAppMessage)
    ensures runsInApp && exportPath.Some? ==>
      (InteractiveStart(runsInApp, exportPath, defaultPath, isDirectory).Success? <==>
       Destination(exportPath, defaultPath, isDirectory).Success?)
    ensures runsInApp && exportPath.None? ==>
      InteractiveStart(runsInApp, exportPath, defaultPath, isDirectory).Success? &&
      var plan := InteractiveStart(runsInApp, exportPath, defaultPath, isDirectory).value;
      plan.Choose? && plan.actions[0] == "Select location" &&
      ("Use default location" in plan.actions <==> defaultPath.Some?)
  {
  }
}
