/** Day-bucket keys and retention (Logger.js:329-366): the name of a day bucket is
    read as a number, and buckets whose number is at most the retention cutoff
    `oldestDayToKeep` are old; every other parseable bucket is current. */
module DayKeys {
  import opened Wrappers
  import opened Strings

  /** Whether a name matches `^(\d{1,4})-(\d{2})-(\d{2})$`: since the separators are not
      digits, the year group is everything before the last six characters. */
  predicate MatchesDayKey(s: string)
  {
    && 7 <= |s| <= 10
    && AllDigits(s[..|s| - 6]) && s[|s| - 6] == '-'
    && AllDigits(s[|s| - 5..|s| - 3]) && s[|s| - 3] == '-'
    && AllDigits(s[|s| - 2..])
  }

  /** The three groups of a matching name, concatenated. */
  function KeyDigits(s: string): (d: string)
    requires MatchesDayKey(s)
    ensures AllDigits(d) && |d| == |s| - 2
  {
    var d := s[..|s| - 6] + s[|s| - 5..|s| - 3] + s[|s| - 2..];
    assert forall i | 0 <= i < |d| :: IsDigit(d[i]) by {
      forall i | 0 <= i < |d| ensures IsDigit(d[i]) {
        if i < |s| - 6 {
          assert d[i] == s[..|s| - 6][i];
        } else if i < |s| - 4 {
          assert d[i] == s[|s| - 5..|s| - 3][i - (|s| - 6)];
        } else {
          assert d[i] == s[|s| - 2..][i - (|s| - 4)];
        }
      }
    }
    d
  }

  /** `#parseDateAsNumber`: the number formed by the concatenated groups of a matching
      name; `match` returns null for any other name, `.slice` on it throws, and the
      catch turns that into null. */
  function ParseDate(s: string): Option<nat>
  {
    if MatchesDayKey(s) then Some(DigitsValue(KeyDigits(s))) else None
  }

  /** A name built from a 1-4 digit year, a 2-digit month and a 2-digit day parses to
      year * 10000 + month * 100 + day. */
  lemma ParseDateOfParts(y: string, m: string, d: string)
    requires 1 <= |y| <= 4 && |m| == 2 && |d| == 2
    requires AllDigits(y) && AllDigits(m) && AllDigits(d)
    ensures ParseDate(y + "-" + m + "-" + d) == Some(DigitsValue(y) * 10000 + DigitsValue(m) * 100 + DigitsValue(d))
  {
    ParseDateOfGroups(y, m, d);
    GroupsValue(y, m, d);
    var v := DigitsValue(y + m + d);
    assert ParseDate(y + "-" + m + "-" + d) == Some(v);
    assert v == DigitsValue(y) * 10000 + DigitsValue(m) * 100 + DigitsValue(d);
  }

  /** Such a name parses to the number its three groups spell when read as one run of digits. */
  lemma ParseDateOfGroups(y: string, m: string, d: string)
    requires 1 <= |y| <= 4 && |m| == 2 && |d| == 2
    requires AllDigits(y) && AllDigits(m) && AllDigits(d)
    ensures AllDigits(y + m + d)
    ensures ParseDate(y + "-" + m + "-" + d) == Some(DigitsValue(y + m + d))
  {
    PartsMatch(y, m, d);
  }

  /** The value of the three groups read as one run of digits. */
  lemma GroupsValue(y: string, m: string, d: string)
    requires |m| == 2 && |d| == 2
    requires AllDigits(y) && AllDigits(m) && AllDigits(d)
    ensures DigitsValue(y + m + d) == DigitsValue(y) * 10000 + DigitsValue(m) * 100 + DigitsValue(d)
  {
    assert Pow10(2) == 100;
    DigitsValueAppend(y, m);
    DigitsValueAppend(y + m, d);
    ShiftTwice(DigitsValue(y), DigitsValue(m), DigitsValue(d));
  }

  lemma PartsMatch(y: string, m: string, d: string)
    requires 1 <= |y| <= 4 && |m| == 2 && |d| == 2
    requires AllDigits(y) && AllDigits(m) && AllDigits(d)
    ensures MatchesDayKey(y + "-" + m + "-" + d)
    ensures KeyDigits(y + "-" + m + "-" + d) == y + m + d
  {
    var s := y + "-" + m + "-" + d;
    assert s[..|s| - 6] == y;
    assert s[|s| - 5..|s| - 3] == m;
    assert s[|s| - 2..] == d;
  }

  lemma ShiftTwice(a: int, b: int, c: int)
    ensures (a * 100 + b) * 100 + c == a * 10000 + b * 100 + c
  {
  }

  /** Conversely every name that parses is such a year, month and day joined by dashes. */
  lemma ParseDateShape(s: string)
    requires ParseDate(s).Some?
    ensures var y, m, d := s[..|s| - 6], s[|s| - 5..|s| - 3], s[|s| - 2..];
      && s == y + "-" + m + "-" + d
      && 1 <= |y| <= 4 && AllDigits(y) && AllDigits(m) && AllDigits(d)
      && ParseDate(s) == Some(DigitsValue(y) * 10000 + DigitsValue(m) * 100 + DigitsValue(d))
  {
    var y, m, d := s[..|s| - 6], s[|s| - 5..|s| - 3], s[|s| - 2..];
    assert s == y + "-" + m + "-" + d;
    ParseDateOfParts(y, m, d);
  }

  /** The digit values the examples below use. */
  lemma ExampleDigits()
    ensures DigitsValue("2024") == 2024
    ensures DigitsValue("01") == 1 && DigitsValue("05") == 5 && DigitsValue("10") == 10
  {
    assert "2024"[..3] == "202" && "202"[..2] == "20" && "20"[..1] == "2" && "2"[..0] == "";
    assert DigitsValue("2") == 2;
    assert DigitsValue("20") == 20;
    assert DigitsValue("202") == 202;
    assert "01"[..1] == "0" && "05"[..1] == "0" && "10"[..1] == "1" && "0"[..0] == "" && "1"[..0] == "";
    assert DigitsValue("0") == 0 && DigitsValue("1") == 1;
  }

  lemma ParseDateExample()
    ensures ParseDate("2024-01-05") == Some(20240105)
  {
    ParseDateOfParts("2024", "01", "05");
    assert "2024" + "-" + "01" + "-" + "05" == "2024-01-05";
    ExampleDigits();
  }

  lemma ParseDateExamples()
    ensures ParseDate("2024-01-01") == Some(20240101)
    ensures ParseDate("2024-01-05") == Some(20240105)
    ensures ParseDate("2024-01-10") == Some(20240110)
  {
    ParseDateExample();
    ParseDateOfParts("2024", "01", "01");
    ParseDateOfParts("2024", "01", "10");
    assert "2024" + "-" + "01" + "-" + "01" == "2024-01-01";
    assert "2024" + "-" + "01" + "-" + "10" == "2024-01-10";
    ExampleDigits();
  }

  lemma ParseDateRejects()
    ensures ParseDate("not-a-date") == None
    ensures ParseDate("logs") == None
    ensures ParseDate("2024-1-05") == None
  {
    assert !IsDigit("not-a-date"[..4][0]);
    assert "2024-1-05"[|"2024-1-05"| - 6] != '-';
  }

  // ---------------------------------------------------------------------------
  // Current and old buckets
  // ---------------------------------------------------------------------------

  predicate IsCurrent(name: string, oldestDayToKeep: int)
  {
    ParseDate(name).Some? && ParseDate(name).value > oldestDayToKeep
  }

  predicate IsOld(name: string, oldestDayToKeep: int)
  {
    ParseDate(name).Some? && ParseDate(name).value <= oldestDayToKeep
  }

  /** `#getCurrentLogs`: the names of the logger's directory newer than the cutoff. */
  function CurrentDays(names: set<string>, oldestDayToKeep: int): set<string>
  {
    set n | n in names && IsCurrent(n, oldestDayToKeep)
  }

  /** `#getOldLogs`: the names at or before the cutoff. */
  function OldDays(names: set<string>, oldestDayToKeep: int): set<string>
  {
    set n | n in names && IsOld(n, oldestDayToKeep)
  }

  function Parseable(names: set<string>): set<string>
  {
    set n | n in names && ParseDate(n).Some?
  }

  /** The current and the old names are disjoint and together are exactly the parseable names. */
  lemma DaysPartition(names: set<string>, oldestDayToKeep: int)
    ensures CurrentDays(names, oldestDayToKeep) !! OldDays(names, oldestDayToKeep)
    ensures CurrentDays(names, oldestDayToKeep) + OldDays(names, oldestDayToKeep) == Parseable(names)
  {
  }

  /** What `trim` leaves of the logger's directory: every old bucket removed. */
  function Trimmed<V>(root: map<string, V>, oldestDayToKeep: int): map<string, V>
  {
    root - OldDays(root.Keys, oldestDayToKeep)
  }

  /** Trimming removes exactly the old buckets: current buckets and unparseable names stay,
      with their contents. */
  lemma TrimmedKeeps<V>(root: map<string, V>, oldestDayToKeep: int, n: string)
    ensures n in Trimmed(root, oldestDayToKeep) <==>
      n in root && (ParseDate(n).None? || ParseDate(n).value > oldestDayToKeep)
    ensures n in Trimmed(root, oldestDayToKeep) ==> Trimmed(root, oldestDayToKeep)[n] == root[n]
  {
  }

  /** After a trim nothing old is left, so trimming again with the same cutoff changes nothing. */
  lemma TrimmedIdempotent<V>(root: map<string, V>, oldestDayToKeep: int)
    ensures OldDays(Trimmed(root, oldestDayToKeep).Keys, oldestDayToKeep) == {}
    ensures Trimmed(Trimmed(root, oldestDayToKeep), oldestDayToKeep) == Trimmed(root, oldestDayToKeep)
  {
    var t := Trimmed(root, oldestDayToKeep);
    assert OldDays(t.Keys, oldestDayToKeep) == {};
    assert t - {} == t;
  }

  /** Buckets 2024-01-01, 2024-01-05 and 2024-01-10 with cutoff 20240104: the first goes. */
  lemma TrimExample<V>(a: V, b: V, c: V)
    ensures Trimmed(map["2024-01-01" := a, "2024-01-05" := b, "2024-01-10" := c], 20240104)
         == map["2024-01-05" := b, "2024-01-10" := c]
  {
    ParseDateExamples();
    var root := map["2024-01-01" := a, "2024-01-05" := b, "2024-01-10" := c];
    assert root.Keys == {"2024-01-01", "2024-01-05", "2024-01-10"};
    assert OldDays(root.Keys, 20240104) == {"2024-01-01"};
  }
}
