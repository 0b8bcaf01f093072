/** The `Logger` class (Logger.js:177-592): its fields, the constructor that trims on
    start-up, the write operations, `trim`, and the export of the days it keeps. The
    logger's directory `basePath/name` is the field `root`; clock readings, write
    failures, date formatting and the destination directory are parameters. */
module LoggerModel {
  import opened Wrappers
  import opened Strings
  import opened DayKeys
  import opened Entries
  import opened Export

  class Logger {
    const name: string
    const today: string
    /** The kinds the caller asked to persist. */
    const requested: seq<string>
    const writeTypes: seq<string> := WriteTypesFor(requested)
    const daysToKeep: int
    /** The number of the day `daysToKeep` days before now; older or equal buckets are trimmed. */
    const oldestDayToKeep: int
    /** The contents of the logger's directory: bucket name to bucket. */
    var root: Root

    /** A new logger on an existing directory; when today's `logs` directory already exists
        the old buckets are trimmed. */
    constructor (name: string, today: string, requested: seq<string>, daysToKeep: int, oldestDayToKeep: int, existing: Root)
      ensures this.name == name && this.today == today && this.requested == requested
      ensures this.daysToKeep == daysToKeep && this.oldestDayToKeep == oldestDayToKeep
      ensures root == if today in existing && existing[today].logs.Some? then Trimmed(existing, oldestDayToKeep) else existing
    {
      this.name := name;
      this.today := today;
      this.requested := requested;
      this.daysToKeep := daysToKeep;
      this.oldestDayToKeep := oldestDayToKeep;
      root := existing;
      new;
      if today in root && root[today].logs.Some? {
        Trim();
      }
    }

    /** `"dump"` is always persisted, whatever kinds were requested. */
    lemma DumpIsWritten()
      ensures "dump" in writeTypes && writeTypes[0] == "dump"
      ensures forall k :: k in writeTypes <==> k == "dump" || k in requested
    {
    }

    /** `trim`: remove every old bucket the listing shows, one at a time. */
    method Trim()
      modifies this
      ensures root == Trimmed(old(root), oldestDayToKeep)
    {
      var oldLogs := OldDays(root.Keys, oldestDayToKeep);
      ghost var start := root;
      ghost var all := oldLogs;
      while oldLogs != {}
        invariant oldLogs <= all
        invariant root == start - (all - oldLogs)
        decreases |oldLogs|
      {
        var f :| f in oldLogs;
        root := root - {f};
        oldLogs := oldLogs - {f};
      }
      assert all - oldLogs == all;
    }

    /** `#writeLog(message, kind)`: for a kind in `writeTypes`, create today's `logs` directory
        if needed and store the entry under the first timestamp not already taken. Returns
        the name written to, if any. */
    method WriteLog(message: string, kind: string, stamps: seq<string>, writeError: Option<string>) returns (written: Option<string>)
      requires kind in writeTypes ==> HasFresh(stamps, LogNames(root, today))
      modifies this
      ensures root == AfterWriteLog(old(root), today, writeTypes, message, kind, stamps, writeError)
      ensures written.Some? <==> kind in writeTypes
      ensures written.Some? ==> written.value == stamps[FirstFresh(stamps, LogNames(old(root), today))]
    {
      if kind in writeTypes {
        var k := PickFresh(stamps, LogNames(root, today));
        root := WithLog(root, today, stamps[k], StoredEntry(message, kind, writeError));
        written := Some(stamps[k]);
      } else {
        written := None;
      }
    }

    method Log(message: string, stamps: seq<string>, writeError: Option<string>)
      requires "log" in writeTypes ==> HasFresh(stamps, LogNames(root, today))
      modifies this
      ensures root == AfterWriteLog(old(root), today, writeTypes, message, "log", stamps, writeError)
    {
      var _ := WriteLog(message, "log", stamps, writeError);
    }

    method Warn(message: string, stamps: seq<string>, writeError: Option<string>)
      requires "warn" in writeTypes ==> HasFresh(stamps, LogNames(root, today))
      modifies this
      ensures root == AfterWriteLog(old(root), today, writeTypes, message, "warn", stamps, writeError)
    {
      var _ := WriteLog(message, "warn", stamps, writeError);
    }

    /** `error`: a structured error is logged as `"Error on line " + (line - 1) + ": " + message`. */
    method Error(e: ErrorArg, stamps: seq<string>, writeError: Option<string>)
      requires "error" in writeTypes ==> HasFresh(stamps, LogNames(root, today))
      modifies this
      ensures root == AfterWriteLog(old(root), today, writeTypes, ErrorText(e), "error", stamps, writeError)
    {
      var _ := WriteLog(ErrorText(e), "error", stamps, writeError);
    }

    /** `drop`: log the error as `error` does, then throw it; the thrown value is returned. */
    method Drop(e: ErrorArg, stamps: seq<string>, writeError: Option<string>) returns (thrown: ErrorArg)
      requires "error" in writeTypes ==> HasFresh(stamps, LogNames(root, today))
      modifies this
      ensures root == AfterWriteLog(old(root), today, writeTypes, ErrorText(e), "error", stamps, writeError)
      ensures thrown == e
    {
      Error(e, stamps, writeError);
      thrown := e;
    }

    /** `dump`: pick a free `dump-<date><ext>` name in today's bucket, log the dump under kind
        `"dump"` with a message naming that file, then write the content to it. */
    method Dump(content: string, message: string, ext: string, dumpStamps: seq<string>, logStamps: seq<string>,
                writeError: Option<string>) returns (fileName: string)
      requires HasFresh(DumpCandidates(dumpStamps, NormalizeExtension(ext)), FileNames(root, today))
      requires HasFresh(logStamps, LogNames(root, today))
      modifies this
      ensures fileName == AfterDumpName(old(root), ext, dumpStamps)
      ensures root == AfterDump(old(root), content, message, ext, dumpStamps, logStamps, writeError)
    {
      var e := NormalizeExtension(ext);
      var candidates := DumpCandidates(dumpStamps, e);
      var k := PickFresh(candidates, FileNames(root, today));
      var date := dumpStamps[k];
      fileName := DumpName(date, e);
      var _ := WriteLog(DumpMessage(fileName, message), "dump", logStamps, writeError);
      root := WithFile(root, today, fileName, content);
    }

    /** The file name `dump` chooses. */
    function AfterDumpName(before: Root, ext: string, dumpStamps: seq<string>): string
      requires HasFresh(DumpCandidates(dumpStamps, NormalizeExtension(ext)), FileNames(before, today))
    {
      var e := NormalizeExtension(ext);
      DumpName(dumpStamps[FirstFresh(DumpCandidates(dumpStamps, e), FileNames(before, today))], e)
    }

    /** The directory after `dump`. */
    function AfterDump(before: Root, content: string, message: string, ext: string, dumpStamps: seq<string>,
                       logStamps: seq<string>, writeError: Option<string>): Root
      requires HasFresh(DumpCandidates(dumpStamps, NormalizeExtension(ext)), FileNames(before, today))
      requires HasFresh(logStamps, LogNames(before, today))
    {
      var fileName := AfterDumpName(before, ext, dumpStamps);
      WithFile(AfterWriteLog(before, today, writeTypes, DumpMessage(fileName, message), "dump", logStamps, writeError),
               today, fileName, content)
    }

    /** A dump adds one new file `dump-<date><ext>` holding the content, and one new entry: of
        kind `"dump"` whose message names that same file, or the fallback `"error"` entry when
        writing it fails (the file is written either way); every earlier file and entry of
        today keeps its content, no bucket but today is added, and no other bucket changes. */
    lemma DumpEffects(before: Root, content: string, message: string, ext: string, dumpStamps: seq<string>,
                      logStamps: seq<string>, writeError: Option<string>)
      requires HasFresh(DumpCandidates(dumpStamps, NormalizeExtension(ext)), FileNames(before, today))
      requires HasFresh(logStamps, LogNames(before, today))
      ensures var fileName := AfterDumpName(before, ext, dumpStamps);
        var after := AfterDump(before, content, message, ext, dumpStamps, logStamps, writeError);
        && (exists date :: date in dumpStamps && fileName == DumpName(date, NormalizeExtension(ext)))
        && fileName !in FileNames(before, today)
        && FileNames(after, today) == FileNames(before, today) + {fileName}
        && after[today].files[fileName] == content
        && (exists entry :: entry in logStamps && entry !in LogNames(before, today)
              && LogNames(after, today) == LogNames(before, today) + {entry}
              && after[today].logs.value[entry] == StoredEntry(DumpMessage(fileName, message), "dump", writeError))
        && (forall n :: n in LogNames(before, today) ==> after[today].logs.value[n] == before[today].logs.value[n])
        && (forall n :: n in FileNames(before, today) ==> after[today].files[n] == before[today].files[n])
        && after.Keys == before.Keys + {today}
        && (forall b :: b in before && b != today ==> after[b] == before[b])
    {
      var e := NormalizeExtension(ext);
      var k := FirstFresh(DumpCandidates(dumpStamps, e), FileNames(before, today));
      var fileName := AfterDumpName(before, ext, dumpStamps);
      assert fileName == DumpName(dumpStamps[k], e);
      var mid := AfterWriteLog(before, today, writeTypes, DumpMessage(fileName, message), "dump", logStamps, writeError);
      var entry := logStamps[FirstFresh(logStamps, LogNames(before, today))];
      WithLogEffects(before, today, entry, StoredEntry(DumpMessage(fileName, message), "dump", writeError));
      WithFileEffects(mid, today, fileName, content);
    }

    /** `exportLogs` after the destination `path` is chosen: the listing of `path/name`
        (`dest`) decides which current buckets are exported, and each is exported in turn. */
    method DoExport(path: string, dest: ExportTree, reformat: string -> string, emojify: bool)
      returns (r: Result<(string, ExportTree), string>)
      ensures r == ExportOutcome(path, dest, reformat, emojify)
    {
      var selected := PathsToCopy(CurrentDays(root.Keys, oldestDayToKeep), today, dest.Keys);
      var tree := ExportEach(dest, DayResults(root, reformat, emojify), selected);
      if tree.Failure? {
        ghost var d :| d in selected && DayResults(root, reformat, emojify)(d) == Failure(tree.error);
        DayExportSkipsAndFails(root[d], reformat, emojify);
        return Failure(tree.error);
      }
      r := Success((path + "/" + name, tree.value));
    }

    /** The buckets an export to a destination listing `dest` selects. */
    function Selected(dest: ExportTree): set<string>
      reads this
    {
      PathsToCopy(CurrentDays(root.Keys, oldestDayToKeep), today, dest.Keys)
    }

    /** The outcome of an export to `path`: rejected when some selected bucket has no `logs`
        directory; otherwise the destination with every selected day written into it. */
    function ExportOutcome(path: string, dest: ExportTree, reformat: string -> string, emojify: bool)
      : Result<(string, ExportTree), string>
      reads this
    {
      if SomeDayFails(DayResults(root, reformat, emojify), Selected(dest)) then Failure(MissingLogsDirectory)
      else Success((path + "/" + name, Exported(dest, DayResults(root, reformat, emojify), Selected(dest))))
    }

    /** What an export leaves in the destination: a bucket not selected keeps what it had;
        a selected bucket with dumps or entries gets its export written over it; a selected
        empty bucket is skipped, and so is today's if it is empty. */
    lemma ExportOutcomeContents(path: string, dest: ExportTree, reformat: string -> string, emojify: bool, d: string)
      requires ExportOutcome(path, dest, reformat, emojify).Success?
      ensures var tree := ExportOutcome(path, dest, reformat, emojify).value.1;
        && (d !in Selected(dest) ==> (d in tree <==> d in dest) && (d in dest ==> tree[d] == dest[d]))
        && (d in Selected(dest) ==>
              && d in root && root[d].logs.Some?
              && (d in tree <==> d in dest || |root[d].logs.value| > 0 || |Dumps(root[d])| > 0)
              && (|root[d].logs.value| > 0 || |Dumps(root[d])| > 0 ==>
                    tree[d] == (if d in dest then dest[d] else map[]) + DayExport(root[d], reformat, emojify).value.value)
              && (|root[d].logs.value| == 0 && |Dumps(root[d])| == 0 && d in dest ==> tree[d] == dest[d]))
      ensures d in Selected(dest) <==> IsCurrent(d, oldestDayToKeep) && d in root && (d == today || d !in dest)
    {
      if d in Selected(dest) {
        DayExportSkipsAndFails(root[d], reformat, emojify);
      }
    }

    /** Exporting twice to the same place with no new writes in between gives the same
        destination as exporting once. */
    lemma ExportIdempotent(path: string, dest: ExportTree, reformat: string -> string, emojify: bool)
      requires ExportOutcome(path, dest, reformat, emojify).Success?
      ensures ExportOutcome(path, ExportOutcome(path, dest, reformat, emojify).value.1, reformat, emojify)
           == ExportOutcome(path, dest, reformat, emojify)
    {
      var results := DayResults(root, reformat, emojify);
      ExportedIdempotent(dest, results, CurrentDays(root.Keys, oldestDayToKeep), today);
    }

    /** The non-interactive `exportLogs`: choose the destination by the decision table, then export. */
    method ExportLogs(exportPath: Option<string>, defaultPath: Option<string>, isDirectory: string -> bool,
                      dest: ExportTree, reformat: string -> string, emojify: bool)
      returns (r: Result<(string, ExportTree), string>)
      ensures Destination(exportPath, defaultPath, isDirectory).Failure? ==>
        r == Failure(Destination(exportPath, defaultPath, isDirectory).error)
      ensures Destination(exportPath, defaultPath, isDirectory).Success? ==>
        r == ExportOutcome(Destination(exportPath, defaultPath, isDirectory).value, dest, reformat, emojify)
    {
      var where := Destination(exportPath, defaultPath, isDirectory);
      if where.Failure? {
        return Failure(where.error);
      }
      r := DoExport(where.value, dest, reformat, emojify);
    }
  }
}
