/** The stored form of log entries and dumps, and the pure rules `#writeLog`, `error` and
    `dump` follow (Logger.js:182-292). The logger's directory is a map from bucket name to
    bucket; a bucket holds an optional `logs` directory of entries and its other files. */
module Entries {
  import opened Wrappers
  import opened Strings

  /** A log entry: its text and its `type` extended attribute (absent when never written). */
  datatype LogFile = LogFile(content: string, kind: Option<string>)

  /** A day bucket: the `logs` directory, if it exists, and the bucket's other files by name. */
  datatype DayDir = DayDir(logs: Option<map<string, LogFile>>, files: map<string, string>)

  type Root = map<string, DayDir>

  /** The kinds the logger persists: `"dump"` first, then the ones the caller asked for. */
  function WriteTypesFor(requested: seq<string>): (w: seq<string>)
    ensures |w| == |requested| + 1 && w[0] == "dump"
    ensures forall k :: k in w <==> k == "dump" || k in requested
  {
    ["dump"] + requested
  }

  /** The constructor's default `writeTypes` argument. */
  const DefaultWriteTypes: seq<string> := ["log", "warn", "error"]

  /** With the default argument every kind the logger writes is persisted. */
  lemma DefaultWriteTypesFor()
    ensures WriteTypesFor(DefaultWriteTypes) == ["dump", "log", "warn", "error"]
    ensures forall k :: k in WriteTypesFor(DefaultWriteTypes) <==> k in {"dump", "log", "warn", "error"}
  {
  }

  // ---------------------------------------------------------------------------
  // Fresh names
  // ---------------------------------------------------------------------------

  predicate HasFresh(candidates: seq<string>, existing: set<string>)
  {
    exists i :: 0 <= i < |candidates| && candidates[i] !in existing
  }

  /** The index the retry loop stops at: the first candidate not already present. */
  function FirstFresh(candidates: seq<string>, existing: set<string>): (k: nat)
    requires HasFresh(candidates, existing)
    ensures k < |candidates| && candidates[k] !in existing
    ensures forall j :: 0 <= j < k ==> candidates[j] in existing
  {
    if candidates[0] !in existing then 0
    else
      assert HasFresh(candidates[1..], existing) by {
        var i :| 0 <= i < |candidates| && candidates[i] !in existing;
        assert candidates[1..][i - 1] == candidates[i];
      }
      var k := FirstFresh(candidates[1..], existing);
      assert forall j :: 1 <= j < k + 1 ==> candidates[j] == candidates[1..][j - 1];
      1 + k
  }

  /** Any index with every earlier candidate present and itself absent is the first fresh one. */
  lemma FirstFreshUnique(candidates: seq<string>, existing: set<string>, k: nat)
    requires k < |candidates| && candidates[k] !in existing
    requires forall j :: 0 <= j < k ==> candidates[j] in existing
    ensures HasFresh(candidates, existing) && FirstFresh(candidates, existing) == k
  {
    var f := FirstFresh(candidates, existing);
    assert !(f < k) && !(k < f);
  }

  /** The `while (fileExists(path))` retry loop: try the candidates in order until one is free. */
  method PickFresh(candidates: seq<string>, existing: set<string>) returns (k: nat)
    requires HasFresh(candidates, existing)
    ensures k < |candidates| && candidates[k] !in existing
    ensures forall j :: 0 <= j < k ==> candidates[j] in existing
    ensures k == FirstFresh(candidates, existing)
  {
    k := 0;
    while candidates[k] in existing
      invariant k <= FirstFresh(candidates, existing)
      invariant forall j :: 0 <= j < k ==> candidates[j] in existing
      decreases FirstFresh(candidates, existing) - k
    {
      k := k + 1;
    }
    FirstFreshUnique(candidates, existing, k);
  }

  // ---------------------------------------------------------------------------
  // Writing an entry
  // ---------------------------------------------------------------------------

  /** The names in today's `logs` directory (none when the directory does not exist). */
  function LogNames(root: Root, today: string): set<string>
  {
    if today in root && root[today].logs.Some? then root[today].logs.value.Keys else {}
  }

  /** The names of today's bucket other than `logs` (none when the bucket does not exist). */
  function FileNames(root: Root, today: string): set<string>
  {
    if today in root then root[today].files.Keys else {}
  }

  /** The text the fallback entry starts with. */
  const WriteFailurePrefix := "Failed to write log:"

  /** The entry `#writeLog` stores: the message and kind, or, when writing them failed
      with some error, `"Failed to write log:"` and that error under kind `"error"`. */
  function StoredEntry(message: string, kind: string, writeError: Option<string>): (e: LogFile)
    ensures e.kind == Some(kind) || e.kind == Some("error")
    ensures writeError.None? ==> e.content == message && e.kind == Some(kind)
    ensures writeError.Some? ==>
      && e.kind == Some("error")
      && StartsWith(e.content, WriteFailurePrefix)
      && e.content[|WriteFailurePrefix|..] == writeError.value
  {
    match writeError
    case None => LogFile(message, Some(kind))
    case Some(err) =>
      var c := WriteFailurePrefix + err;
      assert c[..|WriteFailurePrefix|] == WriteFailurePrefix && c[|WriteFailurePrefix|..] == err;
      LogFile(c, Some("error"))
  }

  /** Today's bucket after `createDirectory(logsPath, true)` (when needed) and a write of
      `entry` under `name` in its `logs` directory. */
  function WithLog(root: Root, today: string, name: string, entry: LogFile): Root
  {
    var day := if today in root then root[today] else DayDir(None, map[]);
    var logs := if day.logs.Some? then day.logs.value else map[];
    root[today := day.(logs := Some(logs[name := entry]))]
  }

  /** A write adds exactly the new name to today's logs, with the given entry; every other
      entry, every file and every other bucket is left as it was. */
  lemma WithLogEffects(root: Root, today: string, name: string, entry: LogFile)
    requires name !in LogNames(root, today)
    ensures var r := WithLog(root, today, name, entry);
      && r.Keys == root.Keys + {today}
      && LogNames(r, today) == LogNames(root, today) + {name}
      && r[today].logs.value[name] == entry
      && (forall n :: n in LogNames(root, today) ==> r[today].logs.value[n] == root[today].logs.value[n])
      && FileNames(r, today) == FileNames(root, today)
      && (today in root ==> r[today].files == root[today].files)
      && (forall b :: b in root && b != today ==> r[b] == root[b])
  {
  }

  /** Today's bucket after `writeString(todayPath + "/" + name, content)`. */
  function WithFile(root: Root, today: string, name: string, content: string): Root
  {
    var day := if today in root then root[today] else DayDir(None, map[]);
    root[today := day.(files := day.files[name := content])]
  }

  lemma WithFileEffects(root: Root, today: string, name: string, content: string)
    ensures var r := WithFile(root, today, name, content);
      && r.Keys == root.Keys + {today}
      && FileNames(r, today) == FileNames(root, today) + {name}
      && r[today].files[name] == content
      && (forall n :: n in FileNames(root, today) && n != name ==> r[today].files[n] == root[today].files[n])
      && LogNames(r, today) == LogNames(root, today)
      && (today in root ==> r[today].logs == root[today].logs)
      && (forall b :: b in root && b != today ==> r[b] == root[b])
  {
  }

  /** The directory after `#writeLog(message, kind)`, given the timestamps `new Date().toISOString()`
      would return in turn and the error, if any, writing the entry would raise. */
  function AfterWriteLog(root: Root, today: string, writeTypes: seq<string>, message: string, kind: string,
                         stamps: seq<string>, writeError: Option<string>): Root
    requires kind in writeTypes ==> HasFresh(stamps, LogNames(root, today))
  {
    if kind in writeTypes then
      WithLog(root, today, stamps[FirstFresh(stamps, LogNames(root, today))], StoredEntry(message, kind, writeError))
    else root
  }

  /** `#writeLog` writes nothing for a kind outside `writeTypes`; otherwise it adds one entry
      under a name that did not exist, with the given kind and message (or `"error"` and the
      error text after the fallback prefix), and changes nothing else. */
  lemma WriteLogSpec(root: Root, today: string, writeTypes: seq<string>, message: string, kind: string,
                     stamps: seq<string>, writeError: Option<string>)
    requires kind in writeTypes ==> HasFresh(stamps, LogNames(root, today))
    ensures kind !in writeTypes ==> AfterWriteLog(root, today, writeTypes, message, kind, stamps, writeError) == root
    ensures kind in writeTypes ==>
      var r := AfterWriteLog(root, today, writeTypes, message, kind, stamps, writeError);
      exists name :: name in stamps && name !in LogNames(root, today)
        && LogNames(r, today) == LogNames(root, today) + {name}
        && r[today].logs.value[name].kind == (if writeError.None? then Some(kind) else Some("error"))
        && (writeError.None? ==> r[today].logs.value[name].content == message)
        && (writeError.Some? ==>
              && StartsWith(r[today].logs.value[name].content, WriteFailurePrefix)
              && r[today].logs.value[name].content[|WriteFailurePrefix|..] == writeError.value)
        && (forall n :: n in LogNames(root, today) ==> r[today].logs.value[n] == root[today].logs.value[n])
        && r.Keys == root.Keys + {today}
        && (forall b :: b in root && b != today ==> r[b] == root[b])
        && FileNames(r, today) == FileNames(root, today)
        && (today in root ==> r[today].files == root[today].files)
  {
    if kind in writeTypes {
      var name := stamps[FirstFresh(stamps, LogNames(root, today))];
      WithLogEffects(root, today, name, StoredEntry(message, kind, writeError));
    }
  }

  // ---------------------------------------------------------------------------
  // log / warn / error / dump
  // ---------------------------------------------------------------------------

  /** The argument of `error`: an object with a `line` property, or anything else, taken as
      the text `String(x)` yields for it. */
  datatype ErrorArg = Plain(text: string) | Structured(line: int, message: string)

  /** The message `error` logs: structured errors are reported one line earlier than their
      `line` property says. */
  function ErrorText(e: ErrorArg): string
  {
    match e
    case Plain(text) => text
    case Structured(line, message) => "Error on line " + IntToString(line - 1) + ": " + message
  }

  lemma ErrorTextStructured(line: nat, message: string)
    requires line >= 1
    ensures ErrorText(Structured(line, message)) == "Error on line " + NatToString(line - 1) + ": " + message
    ensures var t := ErrorText(Structured(line, message));
      var digits := t[|"Error on line "|..|t| - |message| - 2];
      AllDigits(digits) && DigitsValue(digits) == line - 1
  {
    var t := ErrorText(Structured(line, message));
    var digits := NatToString(line - 1);
    assert t == "Error on line " + digits + ": " + message;
    assert t[|"Error on line "|..|t| - |message| - 2] == digits;
    NatToStringRoundTrip(line - 1);
  }

  lemma ErrorTextExample()
    ensures ErrorText(Structured(10, "boom")) == "Error on line 9: boom"
    ensures ErrorText(Structured(0, "boom")) == "Error on line -1: boom"
    ensures ErrorText(Plain("oops")) == "oops"
  {
    assert NatToString(1) == "1";
    assert NatToString(9) == "9";
  }

  /** The default extension and message of `dump`. */
  const DefaultDumpExtension := ".txt"
  const DefaultDumpMessage := ""

  /** The default extension is used as it is, and the default message leaves only the
      file name in parentheses. */
  lemma DumpDefaults(fileName: string)
    ensures NormalizeExtension(DefaultDumpExtension) == DefaultDumpExtension
    ensures DumpMessage(fileName, DefaultDumpMessage) == "(" + fileName + "): "
  {
    assert DefaultDumpExtension[..1] == ".";
  }

  /** The extension `dump` uses: a dot is added unless the extension is empty or has one. */
  function NormalizeExtension(ext: string): (e: string)
    ensures e == "" || StartsWith(e, ".")
  {
    if !StartsWith(ext, ".") && ext != "" then "." + ext else ext
  }

  lemma NormalizeExtensionExamples()
    ensures NormalizeExtension("txt") == ".txt"
    ensures NormalizeExtension(".txt") == ".txt"
    ensures NormalizeExtension("") == ""
  {
    assert "txt"[..1][0] == 't';
    assert ("." + "txt") == ".txt";
    assert ".txt"[..1] == ".";
  }

  /** Normalising is idempotent and keeps every extension that already has the right form. */
  lemma NormalizeExtensionIdempotent(ext: string)
    ensures NormalizeExtension(NormalizeExtension(ext)) == NormalizeExtension(ext)
    ensures (ext == "" || StartsWith(ext, ".")) <==> NormalizeExtension(ext) == ext
    ensures NormalizeExtension(ext) == ext || NormalizeExtension(ext) == "." + ext
  {
    if !StartsWith(ext, ".") && ext != "" {
      assert StartsWith("." + ext, ".");
      assert ("." + ext) != ext by {
        assert |"." + ext| != |ext|;
      }
    }
  }

  /** The dump's file name `"dump-" + date + ext`. */
  function DumpName(date: string, ext: string): string
  {
    "dump-" + date + ext
  }

  /** The message logged for a dump: its file name in parentheses before the caller's message. */
  function DumpMessage(fileName: string, message: string): string
  {
    "(" + fileName + "): " + message
  }

  /** The file name can be read back out of the dump message, so both name the same file. */
  lemma DumpMessageNamesFile(date: string, ext: string, message: string)
    ensures var m := DumpMessage(DumpName(date, ext), message);
      && StartsWith(m, "(dump-")
      && m[1..|m| - |message| - 3] == DumpName(date, ext)
      && m[|m| - |message|..] == message
  {
    var m := DumpMessage(DumpName(date, ext), message);
    assert m == "(" + DumpName(date, ext) + "): " + message;
    assert m[..6] == "(dump-";
  }

  /** Two dump names with the same extension are equal only for the same date. */
  lemma DumpNameInjective(a: string, b: string, ext: string)
    ensures DumpName(a, ext) == DumpName(b, ext) ==> a == b
  {
    if DumpName(a, ext) == DumpName(b, ext) {
      assert |a| == |b|;
      assert DumpName(a, ext)[5..5 + |a|] == a;
      assert DumpName(b, ext)[5..5 + |b|] == b;
    }
  }

  /** The candidate dump names for the timestamps the clock would give in turn. */
  function DumpCandidates(stamps: seq<string>, ext: string): (c: seq<string>)
    ensures |c| == |stamps|
    ensures forall i :: 0 <= i < |stamps| ==> c[i] == DumpName(stamps[i], ext)
    ensures forall i :: 0 <= i < |c| ==> StartsWith(c[i], "dump-")
    ensures forall i, j :: 0 <= i < |c| && 0 <= j < |c| ==> (c[i] == c[j] <==> stamps[i] == stamps[j])
  {
    var c := seq(|stamps|, i requires 0 <= i < |stamps| => DumpName(stamps[i], ext));
    assert forall i :: 0 <= i < |c| ==> StartsWith(c[i], "dump-") by {
      forall i | 0 <= i < |c| ensures StartsWith(c[i], "dump-") {
        DumpNameIsDump(stamps[i], ext);
      }
    }
    assert forall i, j :: 0 <= i < |c| && 0 <= j < |c| ==> (c[i] == c[j] <==> stamps[i] == stamps[j]) by {
      forall i, j | 0 <= i < |c| && 0 <= j < |c| ensures c[i] == c[j] <==> stamps[i] == stamps[j] {
        DumpNameInjective(stamps[i], stamps[j], ext);
      }
    }
    c
  }

  /** Every dump name starts with `"dump-"`, so export picks it up, and none is the entry
      directory `logs`. */
  lemma DumpNameIsDump(date: string, ext: string)
    ensures StartsWith(DumpName(date, ext), "dump-")
    ensures DumpName(date, ext) != "logs"
  {
    assert DumpName(date, ext)[..5] == "dump-";
    assert DumpName(date, ext)[0] == 'd';
  }
}
