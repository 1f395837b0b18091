/**
 * processSubmission (php/contact.php:181-191) and storeSubmission
 * (php/contact.php:265-297): the submission record, the monthly log file
 * name, and the load-append-save of the log followed by an optional backup.
 *
 * The storage directory is a map from file names to decoded contents. The
 * clock, the unique id, the request's address and user agent, and whether
 * each write reaches the disk are parameters.
 */
module SubmissionStore {
  import opened Strings
  import opened Sanitizer

  /** One reading of the clock, as date() formats it; `zone` is date('P'), e.g. "+05:30". */
  datatype DateTime = DateTime(year: nat, month: nat, day: nat, hour: nat, minute: nat, second: nat, zone: string)

  predicate ValidDateTime(t: DateTime) {
    1 <= t.month <= 12 && 1 <= t.day <= 31 && t.hour < 24 && t.minute < 60 && t.second < 60
  }

  /** date('Y-m') */
  function MonthStamp(t: DateTime): string {
    PadNat(t.year, 4) + "-" + PadNat(t.month, 2)
  }

  /** date('Y-m-d') */
  function DayStamp(t: DateTime): string {
    MonthStamp(t) + "-" + PadNat(t.day, 2)
  }

  /** date('H:i:s') for `sep` ":", date('H-i-s') for `sep` "-". */
  function ClockStamp(t: DateTime, sep: string): string {
    PadNat(t.hour, 2) + sep + PadNat(t.minute, 2) + sep + PadNat(t.second, 2)
  }

  /** date('Y-m-d H:i:s'), the timestamp processSubmission records. */
  function LocalStamp(t: DateTime): string {
    DayStamp(t) + " " + ClockStamp(t, ":")
  }

  /** date('c'), the ISO 8601 timestamp storeSubmission records. */
  function IsoStamp(t: DateTime): string {
    DayStamp(t) + "T" + ClockStamp(t, ":") + t.zone
  }

  /** date('Y-m-d_H-i-s'), used in backup file names. */
  function BackupStamp(t: DateTime): string {
    DayStamp(t) + "_" + ClockStamp(t, "-")
  }

  /** Where the pieces of `a sep b sep c` sit. */
  lemma ThreeFields(a: string, b: string, c: string, sep: string)
    requires |sep| == 1
    ensures var s := a + sep + b + sep + c;
            && |s| == |a| + |b| + |c| + 2
            && s[..|a|] == a && s[|a|] == sep[0]
            && s[|a| + 1..|a| + 1 + |b|] == b && s[|a| + 1 + |b|] == sep[0]
            && s[|a| + 2 + |b|..] == c
  {
    var s := a + sep + b + sep + c;
    assert s[..|a|] == a;
    assert s[|a| + 1..|a| + 1 + |b|] == b;
    assert s[|a| + 2 + |b|..] == c;
  }

  /** Two-digit padding of a number below 100 is two bytes and reads back to the number. */
  lemma TwoDigits(n: nat)
    requires n < 100
    ensures |PadNat(n, 2)| == 2 && ParseNat(PadNat(n, 2)) == n
  {
    assert Pow10(2) == 100;
    PadNatWidth(n, 2);
    PadNatParses(n, 2);
  }

  /** date('Y-m-d') of a four-digit year: ten bytes, each field reading back. */
  lemma DayStampRoundTrip(t: DateTime)
    requires ValidDateTime(t) && t.year < 10000
    ensures var s := DayStamp(t);
            && |s| == 10 && s[4] == '-' && s[7] == '-'
            && AllDigits(s[..4]) && ParseNat(s[..4]) == t.year
            && AllDigits(s[5..7]) && ParseNat(s[5..7]) == t.month
            && AllDigits(s[8..]) && ParseNat(s[8..]) == t.day
  {
    assert Pow10(4) == 10000;
    PadNatWidth(t.year, 4);
    PadNatParses(t.year, 4);
    TwoDigits(t.month);
    TwoDigits(t.day);
    ThreeFields(PadNat(t.year, 4), PadNat(t.month, 2), PadNat(t.day, 2), "-");
  }

  /** date('H:i:s'): eight bytes, each field reading back. */
  lemma ClockStampRoundTrip(t: DateTime, sep: string)
    requires ValidDateTime(t) && |sep| == 1
    ensures var s := ClockStamp(t, sep);
            && |s| == 8 && s[2] == sep[0] && s[5] == sep[0]
            && AllDigits(s[..2]) && ParseNat(s[..2]) == t.hour
            && AllDigits(s[3..5]) && ParseNat(s[3..5]) == t.minute
            && AllDigits(s[6..]) && ParseNat(s[6..]) == t.second
  {
    TwoDigits(t.hour);
    TwoDigits(t.minute);
    TwoDigits(t.second);
    ThreeFields(PadNat(t.hour, 2), PadNat(t.minute, 2), PadNat(t.second, 2), sep);
  }

  /**
   * For a year of at most four digits, date('Y-m-d H:i:s') is nineteen bytes,
   * the date and the time of day separated by a space, and each field of
   * either reads back to the clock reading it came from.
   */
  lemma LocalStampRoundTrip(t: DateTime)
    requires ValidDateTime(t) && t.year < 10000
    ensures var s := LocalStamp(t);
            && |s| == 19 && s[..10] == DayStamp(t) && s[10] == ' ' && s[11..] == ClockStamp(t, ":")
  {
    DayStampRoundTrip(t);
    ClockStampRoundTrip(t, ":");
    var s := LocalStamp(t);
    assert s[..10] == DayStamp(t);
    assert s[11..] == ClockStamp(t, ":");
  }

  // ---------------------------------------------------------------------------
  // The submission record
  // ---------------------------------------------------------------------------

  datatype Submission = Submission(id: string, timestamp: string, ipAddress: string, userAgent: string, data: Fields)

  /** `$_SERVER[...] ?? 'unknown'` */
  function OrUnknown(header: Option<string>): (r: string)
    ensures header.Some? ==> r == header.value
    ensures header.None? ==> r == "unknown"
  {
    if header.Some? then header.value else "unknown"
  }

  /**
   * The record literal of processSubmission and storeSubmission: the id from
   * uniqid(), the given timestamp text, the client's address and user agent
   * (or "unknown"), and the sanitized fields unchanged.
   */
  function NewSubmission(data: Fields, id: string, timestamp: string,
                         remoteAddr: Option<string>, userAgent: Option<string>): (s: Submission)
    ensures s.id == id && s.timestamp == timestamp && s.data == data
    ensures s.ipAddress == OrUnknown(remoteAddr) && s.userAgent == OrUnknown(userAgent)
  {
    Submission(id, timestamp, OrUnknown(remoteAddr), OrUnknown(userAgent), data)
  }

  /** processSubmission: the record stamped with date('Y-m-d H:i:s'). */
  function ProcessSubmission(data: Fields, id: string, t: DateTime,
                             remoteAddr: Option<string>, userAgent: Option<string>): (s: Submission)
    ensures s.data == data && s.id == id && s.timestamp == LocalStamp(t)
    ensures s.ipAddress == OrUnknown(remoteAddr) && s.userAgent == OrUnknown(userAgent)
  {
    NewSubmission(data, id, LocalStamp(t), remoteAddr, userAgent)
  }

  // ---------------------------------------------------------------------------
  // File names
  // ---------------------------------------------------------------------------

  /**
   * $config['file_storage'] . 'submissions_' . date('Y-m') . '.json': the
   * directory, the prefix "submissions_", the month stamp and ".json", in that
   * order and nothing else.
   */
  function MonthlyLogName(dir: string, t: DateTime): (name: string)
    ensures |name| == |dir| + 12 + |MonthStamp(t)| + 5
    ensures name[..|dir|] == dir && name[|dir|..|dir| + 12] == "submissions_"
    ensures name[|dir| + 12..|name| - 5] == MonthStamp(t) && name[|name| - 5..] == ".json"
  {
    dir + "submissions_" + MonthStamp(t) + ".json"
  }

  /**
   * $config['file_storage'] . 'backup_' . date('Y-m-d_H-i-s') . '_' . $id . '.json':
   * the directory, the prefix "backup_", the stamp, an underscore, the id and
   * ".json", in that order and nothing else.
   */
  function BackupName(dir: string, t: DateTime, id: string): (name: string)
    ensures var k := |dir| + 7 + |BackupStamp(t)|;
            && |name| == k + 1 + |id| + 5
            && name[..|dir|] == dir && name[|dir|..|dir| + 7] == "backup_"
            && name[|dir| + 7..k] == BackupStamp(t) && name[k] == '_'
            && name[k + 1..k + 1 + |id|] == id && name[k + 1 + |id|..] == ".json"
  {
    SixParts(dir, "backup_", BackupStamp(t), "_", id, ".json");
    dir + "backup_" + BackupStamp(t) + "_" + id + ".json"
  }

  /** Where each of six concatenated pieces sits. */
  lemma SixParts(a: string, b: string, c: string, d: string, e: string, f: string)
    ensures var s := a + b + c + d + e + f;
            var i, j, k := |a| + |b|, |a| + |b| + |c|, |a| + |b| + |c| + |d|;
            && |s| == k + |e| + |f|
            && s[..|a|] == a && s[|a|..i] == b && s[i..j] == c
            && s[j..k] == d && s[k..k + |e|] == e && s[k + |e|..] == f
  {
    var s := a + b + c + d + e + f;
    var x := a + b + c;
    var y := d + e + f;
    assert s == x + y;
    assert s[..|x|] == x && s[|x|..] == y;
    assert x[..|a|] == a && x[|a|..|a| + |b|] == b && x[|a| + |b|..] == c;
    assert y[..|d|] == d && y[|d|..|d| + |e|] == e && y[|d| + |e|..] == f;
  }

  /** A backup never overwrites a monthly log. */
  lemma BackupIsNotLog(dir: string, t: DateTime, u: DateTime, id: string)
    ensures BackupName(dir, t, id) != MonthlyLogName(dir, u)
  {
    assert BackupName(dir, t, id)[|dir|] != MonthlyLogName(dir, u)[|dir|];
  }

  /** Equal texts with a common prefix and middles of equal length have equal middles and ends. */
  lemma SameLayout(p: string, x: string, y: string, q: string, r: string)
    requires p + x + q == p + y + r && |x| == |y|
    ensures x == y && q == r
  {
    assert x == (p + x + q)[|p|..|p| + |x|];
    assert y == (p + y + r)[|p|..|p| + |y|];
    assert q == (p + x + q)[|p| + |x|..];
    assert r == (p + y + r)[|p| + |y|..];
  }

  /** Two clock readings share a log file exactly when they fall in the same month of the same year. */
  lemma MonthlyLogNameInjective(dir: string, t: DateTime, u: DateTime)
    requires ValidDateTime(t) && ValidDateTime(u)
    ensures MonthlyLogName(dir, t) == MonthlyLogName(dir, u) <==> t.year == u.year && t.month == u.month
  {
    if MonthlyLogName(dir, t) == MonthlyLogName(dir, u) {
      var yt, yu := PadNat(t.year, 4), PadNat(u.year, 4);
      var mt, mu := PadNat(t.month, 2), PadNat(u.month, 2);
      TwoDigits(t.month);
      TwoDigits(u.month);
      assert MonthStamp(t) == MonthStamp(u);
      assert |yt| == |yu|;
      assert [] + yt + ("-" + mt) == MonthStamp(t);
      assert [] + yu + ("-" + mu) == MonthStamp(u);
      SameLayout([], yt, yu, "-" + mt, "-" + mu);
      SameLayout("-", mt, mu, [], []);
      PadNatParses(t.year, 4);
      PadNatParses(u.year, 4);
    }
  }

  // ---------------------------------------------------------------------------
  // Files and json_encode
  // ---------------------------------------------------------------------------

  /**
   * The decoded contents of a file in the storage directory: `Unreadable` is
   * anything json_decode makes null or another falsy value of (the empty file
   * among them), `Log` a list of records, `Backup` a single record, which
   * decodes to an associative array.
   */
  datatype Content = Unreadable | Log(items: seq<Submission>) | Backup(record: Submission)

  type Files = map<string, Content>

  /**
   * The submissions loaded before the append: the records of a log, and none
   * for a missing or falsy file. A backup record found at the log's path is
   * also read as none, where the source would append to its array.
   */
  function Previous(files: Files, name: string): (items: seq<Submission>)
    ensures name in files && files[name].Log? ==> items == files[name].items
    ensures name !in files || !files[name].Log? ==> items == []
  {
    if name in files && files[name].Log? then files[name].items else []
  }

  /** json_encode fails (returns false) on a string that is not valid UTF-8. */
  predicate Encodable(s: Submission) {
    && ValidUtf8(s.id) && ValidUtf8(s.timestamp) && ValidUtf8(s.ipAddress) && ValidUtf8(s.userAgent)
    && forall k :: k in s.data ==> ValidUtf8(k) && ValidUtf8(s.data[k])
  }

  predicate AllEncodable(items: seq<Submission>) {
    forall i :: 0 <= i < |items| ==> Encodable(items[i])
  }

  /** What file_put_contents returns: false, or the number of bytes written (zero or more). */
  datatype SaveResult = WriteFailed | ZeroBytes | SomeBytes

  /**
   * file_put_contents($name, json_encode($items, ...)). A write the disk
   * refuses leaves the file as it was; otherwise the file is replaced. When
   * json_encode fails it yields false, which is written as the empty file.
   */
  function PutLog(files: Files, name: string, items: seq<Submission>, diskOk: bool): (r: (Files, SaveResult))
    requires items != []
    ensures !diskOk ==> r == (files, WriteFailed)
    ensures diskOk && AllEncodable(items) ==> r == (files[name := Log(items)], SomeBytes)
    ensures diskOk && !AllEncodable(items) ==> r == (files[name := Unreadable], ZeroBytes)
  {
    if !diskOk then (files, WriteFailed)
    else if AllEncodable(items) then (files[name := Log(items)], SomeBytes)
    else (files[name := Unreadable], ZeroBytes)
  }

  /** `return $saved !== false;` as the source writes it. */
  function StoredFlagAsWritten(saved: SaveResult): (stored: bool)
    ensures stored <==> saved != WriteFailed
  {
    saved != WriteFailed
  }

  /** The flag the caller is told: the record reached the log, i.e. some bytes were written. */
  function StoredFlag(saved: SaveResult): (stored: bool)
    ensures stored <==> saved == SomeBytes
  {
    saved == SomeBytes
  }

  // ---------------------------------------------------------------------------
  // storeSubmission
  // ---------------------------------------------------------------------------

  /** The whole effect of storeSubmission, with the stored flag as the source computes it. */
  function StoreEffect(files: Files, dir: string, data: Fields, id: string, t: DateTime,
                       remoteAddr: Option<string>, userAgent: Option<string>,
                       logDiskOk: bool, backupDiskOk: bool): (r: (Files, SaveResult))
  {
    var name := MonthlyLogName(dir, t);
    var record := NewSubmission(data, id, IsoStamp(t), remoteAddr, userAgent);
    var (written, saved) := PutLog(files, name, Previous(files, name) + [record], logDiskOk);
    if saved == SomeBytes && backupDiskOk && Encodable(record)
    then (written[BackupName(dir, t, id) := Backup(record)], saved)
    else (written, saved)
  }

  /**
   * storeSubmission with the corrected result: load the month's log, append
   * the new record, save, and on a non-empty write save a backup of the
   * record alone. `stored` is true exactly when the record reached the log,
   * and the backup file changes only after such a write.
   */
  method StoreSubmission(files: Files, dir: string, data: Fields, id: string, t: DateTime,
                         remoteAddr: Option<string>, userAgent: Option<string>,
                         logDiskOk: bool, backupDiskOk: bool)
    returns (next: Files, stored: bool)
    ensures var r := StoreEffect(files, dir, data, id, t, remoteAddr, userAgent, logDiskOk, backupDiskOk);
            next == r.0 && stored == StoredFlag(r.1)
    ensures var name := MonthlyLogName(dir, t);
            var record := NewSubmission(data, id, IsoStamp(t), remoteAddr, userAgent);
            && (stored <==> logDiskOk && AllEncodable(Previous(files, name)) && Encodable(record))
            && (stored ==> next[name] == Log(Previous(files, name) + [record]))
    ensures !logDiskOk ==> next == files
    ensures var backup := BackupName(dir, t, id);
            backup in next && (backup !in files || next[backup] != files[backup]) ==> stored
    ensures stored && backupDiskOk ==>
              next[BackupName(dir, t, id)] == Backup(NewSubmission(data, id, IsoStamp(t), remoteAddr, userAgent))
    ensures forall f :: f != MonthlyLogName(dir, t) && f != BackupName(dir, t, id) ==>
              (f in next <==> f in files) && (f in files ==> next[f] == files[f])
  {
    var filename := MonthlyLogName(dir, t);
    var submission := NewSubmission(data, id, IsoStamp(t), remoteAddr, userAgent);

    var submissions: seq<Submission> := [];
    if filename in files {
      submissions := Previous(files, filename);
    }
    submissions := submissions + [submission];

    var written := PutLog(files, filename, submissions, logDiskOk);
    next := written.0;
    var saved := written.1;

    if saved == SomeBytes {
      var backupFile := BackupName(dir, t, id);
      if backupDiskOk && Encodable(submission) {
        next := next[backupFile := Backup(submission)];
      }
    }
    AppendEncodable(Previous(files, filename), submission);
    BackupIsNotLog(dir, t, t, id);
    stored := StoredFlag(saved);
  }

  lemma AppendEncodable(items: seq<Submission>, record: Submission)
    ensures AllEncodable(items + [record]) <==> AllEncodable(items) && Encodable(record)
  {
    if AllEncodable(items) && Encodable(record) {
      forall i | 0 <= i < |items + [record]|
        ensures Encodable((items + [record])[i])
      {
        if i < |items| {
          assert (items + [record])[i] == items[i];
        }
      }
    }
    if AllEncodable(items + [record]) {
      forall i | 0 <= i < |items|
        ensures Encodable(items[i])
      {
        assert (items + [record])[i] == items[i];
      }
      assert (items + [record])[|items|] == record;
    }
  }

  /** The corrected flag holds exactly when the disk took the write and every record, old and new, encodes. */
  lemma StoredIffEncodable(files: Files, dir: string, data: Fields, id: string, t: DateTime,
                           remoteAddr: Option<string>, userAgent: Option<string>,
                           logDiskOk: bool, backupDiskOk: bool)
    ensures var r := StoreEffect(files, dir, data, id, t, remoteAddr, userAgent, logDiskOk, backupDiskOk);
            var record := NewSubmission(data, id, IsoStamp(t), remoteAddr, userAgent);
            StoredFlag(r.1) <==> logDiskOk && AllEncodable(Previous(files, MonthlyLogName(dir, t))) && Encodable(record)
  {
    var record := NewSubmission(data, id, IsoStamp(t), remoteAddr, userAgent);
    AppendEncodable(Previous(files, MonthlyLogName(dir, t)), record);
  }

  /** A store in one month never touches the log of another month. */
  lemma OtherMonthsUntouched(files: Files, dir: string, data: Fields, id: string, t: DateTime, u: DateTime,
                             remoteAddr: Option<string>, userAgent: Option<string>,
                             logDiskOk: bool, backupDiskOk: bool)
    requires ValidDateTime(t) && ValidDateTime(u)
    requires t.year != u.year || t.month != u.month
    requires MonthlyLogName(dir, u) in files
    ensures var next := StoreEffect(files, dir, data, id, t, remoteAddr, userAgent, logDiskOk, backupDiskOk).0;
            MonthlyLogName(dir, u) in next && next[MonthlyLogName(dir, u)] == files[MonthlyLogName(dir, u)]
  {
    MonthlyLogNameInjective(dir, t, u);
    BackupIsNotLog(dir, t, u, id);
  }

  /**
   * The discrepancy in the source's result: a user agent that is not valid
   * UTF-8 makes json_encode fail, the month's log is replaced by the empty
   * file (losing every earlier record), no backup is written, and yet
   * `$saved !== false` reports the submission as stored.
   */
  lemma StoredFlagAsWrittenReportsLostRecord(files: Files, dir: string, data: Fields, id: string, t: DateTime,
                                             remoteAddr: Option<string>)
    ensures var r := StoreEffect(files, dir, data, id, t, remoteAddr, Some("ÿ"), true, true);
            && StoredFlagAsWritten(r.1)
            && !StoredFlag(r.1)
            && r.0[MonthlyLogName(dir, t)] == Unreadable
            && Previous(r.0, MonthlyLogName(dir, t)) == []
  {
    var name := MonthlyLogName(dir, t);
    var record := NewSubmission(data, id, IsoStamp(t), remoteAddr, Some("ÿ"));
    assert !ValidUtf8(record.userAgent);
    var items := Previous(files, name) + [record];
    assert items[|items| - 1] == record;
    assert !AllEncodable(items);
  }

  /** The source's result is true exactly when the disk took the log write, whatever was written. */
  lemma StoredFlagAsWrittenIffDiskOk(files: Files, dir: string, data: Fields, id: string, t: DateTime,
                                     remoteAddr: Option<string>, userAgent: Option<string>,
                                     logDiskOk: bool, backupDiskOk: bool)
    ensures var r := StoreEffect(files, dir, data, id, t, remoteAddr, userAgent, logDiskOk, backupDiskOk);
            StoredFlagAsWritten(r.1) <==> logDiskOk
  {
  }

  /**
   * The corrected flag is true exactly when the month's log now holds what it
   * held before followed by the new record, and nothing else.
   */
  lemma StoredMeansAppended(files: Files, dir: string, data: Fields, id: string, t: DateTime,
                            remoteAddr: Option<string>, userAgent: Option<string>,
                            logDiskOk: bool, backupDiskOk: bool)
    ensures var r := StoreEffect(files, dir, data, id, t, remoteAddr, userAgent, logDiskOk, backupDiskOk);
            var name := MonthlyLogName(dir, t);
            var record := NewSubmission(data, id, IsoStamp(t), remoteAddr, userAgent);
            StoredFlag(r.1) <==> Previous(r.0, name) == Previous(files, name) + [record]
  {
    var name := MonthlyLogName(dir, t);
    var record := NewSubmission(data, id, IsoStamp(t), remoteAddr, userAgent);
    var items := Previous(files, name) + [record];
    BackupIsNotLog(dir, t, t, id);
    AppendEncodable(Previous(files, name), record);
    assert |Previous(files, name) + [record]| > 0;
  }
}
