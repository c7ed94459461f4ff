// Which backup files to delete: file names end in a time stamp, and the listing is sorted by it.
module BackupUtils {
  import opened Characters
  import opened Decimal
  import opened Sequences

  // ---- std::stol with a 64-bit long ----

  datatype Parsed = Number(value: int) | NoNumber

  const LONG_LIMIT: int := 0x8000_0000_0000_0000

  function DigitRun(s: string): (r: string)
    ensures AllDigits(r)
  {
    if s == "" || !IsDigit(s[0]) then "" else [s[0]] + DigitRun(s[1..])
  }

  // std::invalid_argument without a digit, std::out_of_range beyond 64 bits.
  function Stol(s: string): Parsed {
    if s != "" && Space(s[0]) then Stol(s[1..])
    else
      var negative := s != "" && s[0] == '-';
      var digits := DigitRun(if s != "" && (s[0] == '-' || s[0] == '+') then s[1..] else s);
      var value: int := if negative then 0 - Value(digits) else Value(digits);
      if digits == "" || !(-LONG_LIMIT <= value < LONG_LIMIT) then NoNumber else Number(value)
  }

  // ---- DirUtils ----

  // The text after the last c; None when there is no c.
  function AfterLast(s: string, c: char): (r: string)
    requires c in s
    ensures c !in r
  {
    if c in s[1..] then AfterLast(s[1..], c) else s[1..]
  }

  function ExtractNumber(filename: string): int {
    if '-' !in filename then 0
    else
      match Stol(AfterLast(filename, '-'))
      case Number(n) => n
      case NoNumber => 0
  }

  datatype DirectoryEntry = DirectoryEntry(filename: string, regular: bool)

  function PathOf(dirName: string, e: DirectoryEntry): string {
    dirName + "/" + e.filename
  }

  predicate Occurs(text: string, pattern: string) {
    exists i | 0 <= i <= |text| :: OccursAt(text, pattern, i)
  }

  // The prefix is looked for anywhere in the whole path.
  predicate Listed(dirName: string, prefix: string, e: DirectoryEntry) {
    e.regular && Occurs(PathOf(dirName, e), prefix)
  }

  function Matching(dirName: string, prefix: string, entries: seq<DirectoryEntry>): seq<DirectoryEntry> {
    if entries == [] then []
    else
      var last := entries[|entries| - 1];
      Matching(dirName, prefix, entries[..|entries| - 1]) + if Listed(dirName, prefix, last) then [last] else []
  }

  predicate SortedByNumber(files: seq<DirectoryEntry>) {
    forall i, j | 0 <= i < j < |files| :: ExtractNumber(files[i].filename) <= ExtractNumber(files[j].filename)
  }

  predicate IsSortOf(sorted: seq<DirectoryEntry>, files: seq<DirectoryEntry>) {
    multiset(sorted) == multiset(files) && SortedByNumber(sorted)
  }

  // Stands for std::ranges::sort, which gives some sorted permutation: files with equal numbers may come in any order.
  method SortByNumber(files: seq<DirectoryEntry>) returns (sorted: seq<DirectoryEntry>)
    ensures IsSortOf(sorted, files)
  {
    sorted := [];
    for i := 0 to |files|
      invariant IsSortOf(sorted, files[..i])
    {
      hide ExtractNumber;
      assert files[..i + 1] == files[..i] + [files[i]];
      sorted := Insert(sorted, files[i]);
    }
    assert files[..|files|] == files;
  }

  method Insert(sorted: seq<DirectoryEntry>, file: DirectoryEntry) returns (result: seq<DirectoryEntry>)
    requires SortedByNumber(sorted)
    ensures SortedByNumber(result) && multiset(result) == multiset(sorted) + multiset{file}
  {
    hide ExtractNumber, SortedByNumber;
    var i := |sorted|;
    while i > 0 && ExtractNumber(file.filename) < ExtractNumber(sorted[i - 1].filename)
      invariant 0 <= i <= |sorted|
      invariant i < |sorted| ==> ExtractNumber(file.filename) <= ExtractNumber(sorted[i].filename)
    {
      i := i - 1;
    }
    result := sorted[..i] + [file] + sorted[i..];
    Spliced(sorted, file, i);
    SplicedElements(sorted, file, i);
  }

  lemma SplicedElements(sorted: seq<DirectoryEntry>, file: DirectoryEntry, i: nat)
    requires i <= |sorted|
    ensures multiset(sorted[..i] + [file] + sorted[i..]) == multiset(sorted) + multiset{file}
  {
    assert sorted[..i] + sorted[i..] == sorted;
  }

  lemma Spliced(sorted: seq<DirectoryEntry>, file: DirectoryEntry, i: nat)
    requires SortedByNumber(sorted) && i <= |sorted|
    requires i > 0 ==> ExtractNumber(sorted[i - 1].filename) <= ExtractNumber(file.filename)
    requires i < |sorted| ==> ExtractNumber(file.filename) <= ExtractNumber(sorted[i].filename)
    ensures SortedByNumber(sorted[..i] + [file] + sorted[i..])
  {
    hide ExtractNumber;
    var r := sorted[..i] + [file] + sorted[i..];
    forall j, k | 0 <= j < k < |r| ensures ExtractNumber(r[j].filename) <= ExtractNumber(r[k].filename) {
      assert r[j] == if j < i then sorted[j] else if j == i then file else sorted[j - 1];
      assert r[k] == if k < i then sorted[k] else if k == i then file else sorted[k - 1];
    }
  }

  // A directory that does not exist has no entries.
  method ListFilesByPrefix(dirName: string, prefix: string, entries: seq<DirectoryEntry>)
    returns (files: seq<DirectoryEntry>)
    ensures IsSortOf(files, Matching(dirName, prefix, entries))
    ensures forall e: DirectoryEntry ::
      multiset(files)[e] == if e.regular && Occurs(dirName + "/" + e.filename, prefix) then multiset(entries)[e] else 0
  {
    CountMatching(dirName, prefix, entries);
    files := [];
    for i := 0 to |entries|
      invariant files == Matching(dirName, prefix, entries[..i])
    {
      assert entries[..i + 1][..i] == entries[..i];
      if entries[i].regular && Occurs(PathOf(dirName, entries[i]), prefix) {
        files := files + [entries[i]];
      }
    }
    assert entries[..|entries|] == entries;
    files := SortByNumber(files);
  }

  lemma {:induction false} CountMatching(dirName: string, prefix: string, entries: seq<DirectoryEntry>)
    ensures var files := Matching(dirName, prefix, entries);
      forall e: DirectoryEntry ::
        multiset(files)[e]
          == if e.regular && Occurs(dirName + "/" + e.filename, prefix) then multiset(entries)[e] else 0
  {
    hide Occurs;
    if entries != [] {
      var before, last := entries[..|entries| - 1], entries[|entries| - 1];
      assert entries == before + [last];
      CountMatching(dirName, prefix, before);
    }
  }

  // ---- BackupUtils ----

  // Which of the sorted files are handed out for deletion: a negative retention is a huge number next to a size_t.
  function ToDelete(sorted: seq<DirectoryEntry>, retention: int): seq<DirectoryEntry> {
    if retention < 0 || |sorted| <= retention then [] else sorted[..|sorted| - retention]
  }

  function Paths(dirName: string, files: seq<DirectoryEntry>): (r: seq<string>)
    ensures |r| == |files|
  {
    seq(|files|, i requires 0 <= i < |files| => PathOf(dirName, files[i]))
  }

  // Which sort it was is open: files with equal numbers may come in any order.
  method GetBackupFiles(backupDir: string, module_: string, entries: seq<DirectoryEntry>, retention: int)
    returns (files: seq<string>)
    ensures exists sorted | IsSortOf(sorted, Matching(backupDir, module_ + "-", entries)) ::
      files == Paths(backupDir, ToDelete(sorted, retention))
    ensures retention < 0 ==> files == []
    ensures forall p <- files ::
      Occurs(p, module_ + "-") && exists e <- entries :: e.regular && p == backupDir + "/" + e.filename
  {
    var fileList := ListFilesByPrefix(backupDir, module_ + "-", entries);
    if retention < 0 || |fileList| <= retention { return []; }
    files := Paths(backupDir, fileList[..|fileList| - retention]);
  }

  // ---- time stamps ----

  datatype Stamp = Stamp(year: nat, month: nat, day: nat, hour: nat, minute: nat)

  // std::chrono::year ends at 32767.
  predicate ValidStamp(t: Stamp) {
    t.year <= 32767 && t.month <= 12 && t.day <= 31 && t.hour < 24 && t.minute < 60
  }

  predicate Earlier(s: Stamp, t: Stamp) {
    || s.year < t.year
    || (s.year == t.year && s.month < t.month)
    || (s.year == t.year && s.month == t.month && s.day < t.day)
    || (s.year == t.year && s.month == t.month && s.day == t.day && s.hour < t.hour)
    || (s.year == t.year && s.month == t.month && s.day == t.day && s.hour == t.hour && s.minute < t.minute)
  }

  function Padded(n: nat, width: nat): (r: string)
    ensures r != "" && AllDigits(r)
  {
    var d := Digits(n);
    if |d| >= width then d else seq(width - |d|, i => '0') + d
  }

  // {:%Y%m%d%H%M}
  function TimestampText(t: Stamp): (r: string)
    ensures r != "" && AllDigits(r)
  {
    Padded(t.year, 4) + Padded(t.month, 2) + Padded(t.day, 2) + Padded(t.hour, 2) + Padded(t.minute, 2)
  }

  function BackupFilename(module_: string, t: Stamp): string {
    module_ + "-" + TimestampText(t) + ".json"
  }

  function StampNumber(t: Stamp): nat {
    (((t.year * 100 + t.month) * 100 + t.day) * 100 + t.hour) * 100 + t.minute
  }

  function TenTo(n: nat): nat {
    if n == 0 then 1 else 10 * TenTo(n - 1)
  }

  lemma {:induction false} ValueOfConcat(s: string, t: string)
    requires AllDigits(s) && AllDigits(t)
    ensures AllDigits(s + t) && Value(s + t) == Value(s) * TenTo(|t|) + Value(t)
  {
    if t == "" {
      assert s + t == s;
    } else {
      var u := t[..|t| - 1];
      assert (s + t)[..|s + t| - 1] == s + u;
      ValueOfConcat(s, u);
      assert Value(s) * (10 * TenTo(|u|)) == 10 * (Value(s) * TenTo(|u|));
    }
  }

  lemma {:induction false} ValueOfZeros(n: nat)
    ensures AllDigits(seq(n, i => '0')) && Value(seq(n, i => '0')) == 0
  {
    if n > 0 {
      var z := seq(n, i => '0');
      assert z[..n - 1] == seq(n - 1, i => '0');
      ValueOfZeros(n - 1);
    }
  }

  lemma PaddedValue(n: nat, width: nat)
    ensures Value(Padded(n, width)) == n
  {
    hide Value, Digits;
    ValueOfDigits(n);
    var d := Digits(n);
    if |d| < width {
      ValueOfZeros(width - |d|);
      ValueOfConcat(seq(width - |d|, i => '0'), d);
    }
  }

  lemma TwoDigits(n: nat)
    requires n < 100
    ensures |Padded(n, 2)| == 2
  {
    if n >= 10 { assert Digits(n) == Digits(n / 10) + [DigitChar(n % 10)]; }
  }

  lemma AppendTwo(s: string, n: nat)
    requires AllDigits(s) && n < 100
    ensures AllDigits(s + Padded(n, 2)) && Value(s + Padded(n, 2)) == Value(s) * 100 + n
  {
    TwoDigits(n);
    PaddedValue(n, 2);
    ValueOfConcat(s, Padded(n, 2));
    assert TenTo(2) == 10 * TenTo(1) == 10 * (10 * TenTo(0));
  }

  lemma TimestampValue(t: Stamp)
    requires ValidStamp(t)
    ensures Value(TimestampText(t)) == StampNumber(t) < LONG_LIMIT
  {
    hide Padded, Value;
    var y := Padded(t.year, 4);
    PaddedValue(t.year, 4);
    AppendTwo(y, t.month);
    AppendTwo(y + Padded(t.month, 2), t.day);
    AppendTwo(y + Padded(t.month, 2) + Padded(t.day, 2), t.hour);
    AppendTwo(y + Padded(t.month, 2) + Padded(t.day, 2) + Padded(t.hour, 2), t.minute);
  }

  lemma {:induction false} DigitRunOf(s: string, rest: string)
    requires AllDigits(s) && (rest == "" || !IsDigit(rest[0]))
    ensures DigitRun(s + rest) == s
  {
    if s == "" {
      assert s + rest == rest;
    } else {
      assert (s + rest)[1..] == s[1..] + rest;
      DigitRunOf(s[1..], rest);
    }
  }

  lemma {:induction false} AfterLastOf(s: string, rest: string, c: char)
    requires c !in rest
    ensures c in s + [c] + rest && AfterLast(s + [c] + rest, c) == rest
  {
    var w := s + [c] + rest;
    assert w[|s|] == c;
    if s == "" {
      assert w[1..] == rest;
    } else {
      assert w[1..] == s[1..] + [c] + rest;
      AfterLastOf(s[1..], rest, c);
    }
  }

  // The number in a backup's name is its time stamp, whatever dashes the module's name has.
  lemma NumberOfBackup(module_: string, t: Stamp)
    requires ValidStamp(t)
    ensures ExtractNumber(BackupFilename(module_, t)) == StampNumber(t)
  {
    hide TimestampText;
    var digits := TimestampText(t);
    var rest := digits + ".json";
    assert BackupFilename(module_, t) == module_ + "-" + rest;
    forall c <- rest ensures c != '-' {
      if c in digits {} else { assert c in ".json"; }
    }
    AfterLastOf(module_, rest, '-');
    DigitRunOf(digits, ".json");
    TimestampValue(t);
    assert rest[0] == digits[0] && digits[0] in digits;
  }

  // Twelve digits up to the year 9999: year, month, day, hour and minute.
  lemma BackupNameText(module_: string, t: Stamp)
    requires ValidStamp(t) && t.year <= 9999
    ensures var digits := TimestampText(t);
      && BackupFilename(module_, t) == module_ + "-" + digits + ".json"
      && |digits| == 12 && AllDigits(digits) && Value(digits)
        == t.year * 100000000 + t.month * 1000000 + t.day * 10000 + t.hour * 100 + t.minute
  {
    hide Value, Digits, Padded;
    TimestampValue(t);
    PaddedLength(t.year, 4);
    TwoDigits(t.month);
    TwoDigits(t.day);
    TwoDigits(t.hour);
    TwoDigits(t.minute);
  }

  lemma {:induction false} PaddedLength(n: nat, width: nat)
    requires n < TenTo(width) && width > 0
    ensures |Digits(n)| <= width && |Padded(n, width)| == width
  {
    if n >= 10 {
      assert width > 1 && n / 10 < TenTo(width - 1);
      PaddedLength(n / 10, width - 1);
    }
  }

  // What stol takes from any text: white space, a sign, digits up to the first other character.
  lemma {:induction false} StolReads(spaces: string, sign: string, digits: string, rest: string)
    requires (forall c <- spaces :: Space(c)) && sign in ["", "+", "-"]
    requires AllDigits(digits) && digits != "" && (rest == "" || !IsDigit(rest[0]))
    ensures var n: int := if sign == "-" then -(Value(digits) as int) else Value(digits);
      Stol(spaces + sign + digits + rest)
        == if -0x8000_0000_0000_0000 <= n <= 0x7FFF_FFFF_FFFF_FFFF then Number(n) else NoNumber
  {
    var s := spaces + sign + digits + rest;
    if spaces == "" {
      DigitRunOf(digits, rest);
      assert digits[0] in digits;
      assert s == sign + (digits + rest);
      if sign != "" { assert s[1..] == digits + rest; } else { assert s == digits + rest; }
    } else {
      assert s[1..] == spaces[1..] + sign + digits + rest;
      StolReads(spaces[1..], sign, digits, rest);
    }
  }

  // The number of any file name: that behind the last dash, and 0 without a dash, without digits there or beyond a
  // long.
  lemma NumberOfName(front: string, spaces: string, digits: string, rest: string)
    requires (forall c <- spaces :: Space(c)) && AllDigits(digits) && (rest == "" || !IsDigit(rest[0])) && '-' !in rest
    requires digits == "" ==> rest == "" || (!Space(rest[0]) && rest[0] != '+')
    ensures var n := Value(digits);
      ExtractNumber(front + "-" + (spaces + digits + rest)) == if n <= 0x7FFF_FFFF_FFFF_FFFF then n else 0
    ensures ExtractNumber(spaces + digits + rest) == 0
  {
    hide Stol;
    var tail := spaces + digits + rest;
    assert '-' !in spaces && '-' !in digits;
    AfterLastOf(front, tail, '-');
    assert front + ['-'] + tail == front + "-" + tail;
    if digits == "" {
      assert tail == spaces + rest;
      StolNothing(spaces, rest);
    } else {
      assert spaces + "" + digits + rest == tail;
      StolReads(spaces, "", digits, rest);
    }
  }

  lemma {:induction false} StolNothing(spaces: string, rest: string)
    requires forall c <- spaces :: Space(c)
    requires rest == "" || (!Space(rest[0]) && !IsDigit(rest[0]) && rest[0] != '+' && rest[0] != '-')
    ensures Stol(spaces + rest) == NoNumber
  {
    var s := spaces + rest;
    if spaces == "" {
      assert s == rest;
    } else {
      assert s[1..] == spaces[1..] + rest;
      StolNothing(spaces[1..], rest);
    }
  }

  // The numbers order stamps as time does.
  lemma NumbersFollowTime(s: Stamp, t: Stamp)
    requires ValidStamp(s) && ValidStamp(t)
    ensures Earlier(s, t) <==> StampNumber(s) < StampNumber(t)
    ensures StampNumber(s) == StampNumber(t) ==> s == t
  {
  }

  // For every retention: how many files go, that they are the oldest by number, and that nothing is lost or made up.
  lemma RetentionKeepsTheHighest(files: seq<DirectoryEntry>, sorted: seq<DirectoryEntry>, retention: nat)
    requires IsSortOf(sorted, files)
    ensures var gone := ToDelete(sorted, retention);
      var kept := sorted[|gone|..];
      && |gone| == |files| - (if |files| < retention then |files| else retention)
      && multiset(gone) + multiset(kept) == multiset(files)
      && forall g <- gone, k <- kept :: ExtractNumber(g.filename) <= ExtractNumber(k.filename)
  {
    hide ExtractNumber;
    var gone := ToDelete(sorted, retention);
    assert |sorted| == |multiset(sorted)| == |multiset(files)| == |files|;
    assert gone + sorted[|gone|..] == sorted;
  }

  predicate IsBackup(e: DirectoryEntry, module_: string, t: Stamp) {
    ValidStamp(t) && e.filename == BackupFilename(module_, t)
  }

  // Among backups no deleted file is newer than a kept one.
  lemma DeletedAreNoNewer(files: seq<DirectoryEntry>, sorted: seq<DirectoryEntry>, retention: nat,
                          g: DirectoryEntry, gm: string, gt: Stamp, k: DirectoryEntry, km: string, kt: Stamp)
    requires IsSortOf(sorted, files)
    requires g in ToDelete(sorted, retention) && k in sorted[|ToDelete(sorted, retention)|..]
    requires IsBackup(g, gm, gt) && IsBackup(k, km, kt)
    ensures !Earlier(kt, gt)
  {
    hide ExtractNumber, StampNumber, BackupFilename;
    RetentionKeepsTheHighest(files, sorted, retention);
    NumberOfBackup(gm, gt);
    NumberOfBackup(km, kt);
    NumbersFollowTime(kt, gt);
  }

  // ---- whose backups are listed ----

  lemma OccursIn(before: string, pattern: string, after: string)
    ensures Occurs(before + pattern + after, pattern)
  {
    var text := before + pattern + after;
    assert OccursAt(text, pattern, |before|);
  }

  // What ends in a character that the tail lacks occurs in front of the tail or not at all.
  lemma OccursInFront(front: string, tail: string, pattern: string)
    requires pattern != "" && pattern[|pattern| - 1] !in tail
    ensures Occurs(front + tail, pattern) <==> Occurs(front, pattern)
  {
    var text, n := front + tail, |pattern|;
    assert forall j | |front| <= j < |text| :: text[j] == tail[j - |front|] && text[j] in tail;
    if i :| 0 <= i <= |text| && OccursAt(text, pattern, i) {
      assert text[i + n - 1] == text[i..i + n][n - 1];
      assert i + n <= |front|;
      assert front[i..i + n] == text[i..i + n];
      assert OccursAt(front, pattern, i);
    }
    if i :| 0 <= i <= |front| && OccursAt(front, pattern, i) {
      assert front[i..i + n] == text[i..i + n];
      assert OccursAt(text, pattern, i);
    }
  }

  datatype Backup = Backup(module_: string, stamp: Stamp)

  function EntryOf(b: Backup): DirectoryEntry {
    DirectoryEntry(BackupFilename(b.module_, b.stamp), true)
  }

  // A backup of any module is listed exactly when the prefix occurs in its path up to the last dash.
  lemma ListedExactly(dirName: string, module_: string, b: Backup)
    ensures Listed(dirName, module_ + "-", EntryOf(b))
      <==> Occurs(dirName + "/" + b.module_ + "-", module_ + "-")
  {
    hide TimestampText, Occurs;
    var front, tail := dirName + "/" + b.module_ + "-", TimestampText(b.stamp) + ".json";
    assert PathOf(dirName, EntryOf(b)) == front + tail;
    assert (module_ + "-")[|module_ + "-"| - 1] == '-';
    TailHasNoDash(b.stamp);
    OccursInFront(front, tail, module_ + "-");
  }

  lemma TailHasNoDash(t: Stamp)
    ensures '-' !in TimestampText(t) + ".json"
  {
    hide TimestampText;
    assert forall c <- TimestampText(t) :: IsDigit(c);
  }

  ghost predicate BelongsTo(e: DirectoryEntry, module_: string) {
    exists t :: e.filename == BackupFilename(module_, t)
  }

  // A file name tells its module: everything in front of the last dash.
  lemma OneModule(b: Backup, module_: string)
    ensures BelongsTo(EntryOf(b), module_) <==> b.module_ == module_
  {
    hide TimestampText;
    if t :| EntryOf(b).filename == BackupFilename(module_, t) {
      SameFront(b.module_, TimestampText(b.stamp) + ".json", module_, TimestampText(t) + ".json", b.stamp, t);
    }
  }

  lemma SameFront(m: string, x: string, m': string, x': string, t: Stamp, t': Stamp)
    requires x == TimestampText(t) + ".json" && x' == TimestampText(t') + ".json"
    requires m + "-" + TimestampText(t) + ".json" == m' + "-" + TimestampText(t') + ".json"
    ensures m == m'
  {
    hide TimestampText;
    TailHasNoDash(t);
    TailHasNoDash(t');
    var s := m + "-" + x;
    assert s == m + "-" + TimestampText(t) + ".json" && s == m' + "-" + x';
    assert s[|m|] == '-' && s[|m'|] == '-';
    assert forall i | |m| < i < |s| :: s[i] == x[i - |m| - 1] && s[i] in x;
    assert forall i | |m'| < i < |s| :: s[i] == x'[i - |m'| - 1] && s[i] in x';
    assert s[..|m|] == m && s[..|m'|] == m';
  }

  lemma {:induction false} InMatching(dirName: string, prefix: string, entries: seq<DirectoryEntry>, e: DirectoryEntry)
    ensures e in Matching(dirName, prefix, entries) <==> e in entries && Listed(dirName, prefix, e)
  {
    hide Listed;
    if entries != [] {
      var before, last := entries[..|entries| - 1], entries[|entries| - 1];
      InMatching(dirName, prefix, before, e);
      assert entries == before + [last];
    }
  }

  function Entries(backups: seq<Backup>): (r: seq<DirectoryEntry>)
    ensures |r| == |backups| && forall i | 0 <= i < |backups| :: r[i] == EntryOf(backups[i])
  {
    seq(|backups|, i requires 0 <= i < |backups| => EntryOf(backups[i]))
  }

  // Whatever the retention, only backups of the module itself are handed out for deletion.
  ghost predicate OwnOnly(dirName: string, module_: string, entries: seq<DirectoryEntry>) {
    forall sorted, retention, e | IsSortOf(sorted, Matching(dirName, module_ + "-", entries))
        && e in ToDelete(sorted, retention) :: BelongsTo(e, module_)
  }

  // Neither the directory nor another module's name may bring the prefix into a path.
  predicate NoForeignPrefix(dirName: string, module_: string, backups: seq<Backup>) {
    forall b <- backups :: Occurs(dirName + "/" + b.module_ + "-", module_ + "-") ==> b.module_ == module_
  }

  // In a directory of backups this condition is exact; the module's own backups are always listed.
  lemma OwnBackupsOnly(dirName: string, module_: string, backups: seq<Backup>)
    ensures OwnOnly(dirName, module_, Entries(backups)) <==> NoForeignPrefix(dirName, module_, backups)
    ensures forall b <- backups | b.module_ == module_ ::
      EntryOf(b) in Matching(dirName, module_ + "-", Entries(backups))
  {
    hide Listed, Matching, BelongsTo, Occurs, EntryOf, ExtractNumber;
    var entries := Entries(backups);
    var listed := Matching(dirName, module_ + "-", entries);
    forall b <- backups
      ensures EntryOf(b) in listed <==> Occurs(dirName + "/" + b.module_ + "-", module_ + "-")
      ensures BelongsTo(EntryOf(b), module_) <==> b.module_ == module_
      ensures b.module_ == module_ ==> EntryOf(b) in listed
    {
      var i :| 0 <= i < |backups| && backups[i] == b;
      assert entries[i] == EntryOf(b);
      InMatching(dirName, module_ + "-", entries, EntryOf(b));
      ListedExactly(dirName, module_, b);
      OneModule(b, module_);
      OccursIn(dirName + "/", module_ + "-", "");
      assert dirName + "/" + (module_ + "-") + "" == dirName + "/" + module_ + "-";
    }
    if NoForeignPrefix(dirName, module_, backups) {
      forall sorted, retention, e | IsSortOf(sorted, listed) && e in ToDelete(sorted, retention)
        ensures BelongsTo(e, module_)
      {
        assert e in sorted && e in multiset(sorted) && e in listed;
        InMatching(dirName, module_ + "-", entries, e);
        var i :| 0 <= i < |entries| && entries[i] == e;
        assert backups[i] in backups && e == EntryOf(backups[i]);
      }
    }
    if OwnOnly(dirName, module_, entries) {
      var sorted := SomeSort(listed);
      forall b <- backups | Occurs(dirName + "/" + b.module_ + "-", module_ + "-") ensures b.module_ == module_ {
        assert EntryOf(b) in multiset(listed) && EntryOf(b) in sorted;
        assert sorted[..|sorted| - 0] == sorted && EntryOf(b) in ToDelete(sorted, 0);
      }
    }
  }

  lemma {:induction false} SomeSort(files: seq<DirectoryEntry>) returns (sorted: seq<DirectoryEntry>)
    ensures IsSortOf(sorted, files)
  {
    hide ExtractNumber;
    if files == [] {
      sorted := [];
    } else {
      var before, last := files[..|files| - 1], files[|files| - 1];
      sorted := SomeSort(before);
      assert files == before + [last];
      var i := |sorted|;
      while i > 0 && ExtractNumber(last.filename) < ExtractNumber(sorted[i - 1].filename)
        invariant 0 <= i <= |sorted|
        invariant i < |sorted| ==> ExtractNumber(last.filename) <= ExtractNumber(sorted[i].filename)
      {
        i := i - 1;
      }
      Spliced(sorted, last, i);
      SplicedElements(sorted, last, i);
      sorted := sorted[..i] + [last] + sorted[i..];
    }
  }

  // Two ways in which the condition fails: another module's name ends in this one's, and so does, for every file, the
  // directory's.
  lemma SuffixModulesAreListed(dirName: string, other: string, module_: string, t: Stamp)
    ensures Listed(dirName, module_ + "-", EntryOf(Backup(other + module_, t)))
  {
    hide Occurs;
    ListedExactly(dirName, module_, Backup(other + module_, t));
    OccursIn(dirName + "/" + other, module_ + "-", "");
    assert dirName + "/" + other + (module_ + "-") + "" == dirName + "/" + (other + module_) + "-";
  }

  lemma DirectoryListsAll(before: string, module_: string, after: string, filename: string)
    ensures Listed(before + module_ + "-" + after, module_ + "-", DirectoryEntry(filename, true))
  {
    var dirName := before + module_ + "-" + after;
    OccursIn(before, module_ + "-", after + "/" + filename);
    assert PathOf(dirName, DirectoryEntry(filename, true)) == before + (module_ + "-") + (after + "/" + filename);
  }
}
