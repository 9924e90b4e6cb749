/** VM backups on a remote and rolling copies: the backup file names the
    server writes and parses back, and which old copies a rolling job
    removes. The remote handler, the XAPI calls and the clock are not
    modelled; a date is the string `safeDateFormat` writes. */
module Backups {
  import opened Wrappers
  import opened Strings

  // -----------------------------------------------------------------
  // Strings

  /** The characters `.` does not match in a regular expression. */
  predicate IsLineTerminator(c: char) {
    c == '\n' || c == '\r' || c == '\U{2028}' || c == '\U{2029}'
  }

  /** `s` matches `.+`'s single-line characters throughout. */
  predicate OnOneLine(s: string) {
    forall k :: 0 <= k < |s| ==> !IsLineTerminator(s[k])
  }

  /** The index of the last `/`, or -1. */
  function LastSlash(p: string): (i: int)
    ensures i == -1 ==> Lacks(p, '/')
    ensures i != -1 ==> 0 <= i < |p| && p[i] == '/' && Lacks(p[i + 1..], '/')
  {
    if |p| == 0 then -1
    else if p[|p| - 1] == '/' then |p| - 1
    else
      var i := LastSlash(p[..|p| - 1]);
      assert i != -1 ==> p[i + 1..] == p[..|p| - 1][i + 1..] + [p[|p| - 1]];
      i
  }

  /** `path.basename`: the text after the last `/`. */
  function Basename(p: string): (r: string)
    ensures Lacks(r, '/')
    ensures Lacks(p, '/') ==> r == p
  {
    var i := LastSlash(p);
    if i == -1 then p else p[i + 1..]
  }

  /** `path.dirname`: the text before the last `/`, or `.`. */
  function Dirname(p: string): (r: string)
  {
    var i := LastSlash(p);
    if i == -1 then "." else p[..i]
  }

  lemma {:induction false} LastSlashOfJoin(dir: string, file: string)
    requires Lacks(file, '/')
    ensures LastSlash(dir + "/" + file) == |dir|
    decreases |file|
  {
    var p := dir + "/" + file;
    if |file| == 0 {
      assert p[|p| - 1] == '/';
    } else {
      assert p[|p| - 1] == file[|file| - 1];
      assert p[..|p| - 1] == dir + "/" + file[..|file| - 1];
      LastSlashOfJoin(dir, file[..|file| - 1]);
    }
  }

  /** A path joined from a directory and a file name splits back into
      them. */
  lemma BaseAndDir(dir: string, file: string)
    requires Lacks(file, '/')
    ensures Basename(dir + "/" + file) == file
    ensures Dirname(dir + "/" + file) == dir
  {
    LastSlashOfJoin(dir, file);
    var p := dir + "/" + file;
    assert p[|dir| + 1..] == file;
    assert p[..|dir|] == dir;
  }

  // -----------------------------------------------------------------
  // The three file-name patterns

  /** `/^([^_]+)_([^_]+)_(.+)\.xva$/` matched with these groups. */
  predicate XvaForm(base: string, date: string, tag: string, name: string) {
    && base == date + "_" + tag + "_" + name + ".xva"
    && |date| > 0 && Lacks(date, '_')
    && |tag| > 0 && Lacks(tag, '_')
    && |name| > 0 && OnOneLine(name)
  }

  /** `/^([^_]+)_(.+)\.json$/` matched with these groups. */
  predicate JsonForm(base: string, date: string, name: string) {
    && base == date + "_" + name + ".json"
    && |date| > 0 && Lacks(date, '_')
    && |name| > 0 && OnOneLine(name)
  }

  /** `/^vm_delta_([^_]+)_(.+)$/` matched with these groups. */
  predicate DeltaDirForm(dir: string, tag: string, uuid: string) {
    && dir == "vm_delta_" + tag + "_" + uuid
    && |tag| > 0 && Lacks(tag, '_')
    && |uuid| > 0 && OnOneLine(uuid)
  }

  function MatchXva(base: string): (r: Option<(string, string, string)>)
    ensures r.Some? ==> XvaForm(base, r.value.0, r.value.1, r.value.2)
  {
    if !EndsWith(base, ".xva") then None
    else
      var body := base[..|base| - 4];
      var i := FindFrom(body, '_', 0);
      if i <= 0 then None
      else
        var j := FindFrom(body, '_', i + 1);
        if j == -1 || j == i + 1 || j + 1 == |body| || !OnOneLine(body[j + 1..]) then None
        else
          assert body == body[..i] + "_" + body[i + 1..j] + "_" + body[j + 1..];
          assert base == body + ".xva";
          Some((body[..i], body[i + 1..j], body[j + 1..]))
  }

  /** The groups of a match are determined by the name. */
  lemma MatchXvaComplete(base: string, date: string, tag: string, name: string)
    requires XvaForm(base, date, tag, name)
    ensures MatchXva(base) == Some((date, tag, name))
  {
    var body := date + "_" + tag + "_" + name;
    assert base == body + ".xva";
    assert base[..|base| - 4] == body;
    assert base[|base| - 4..] == ".xva";
    FindFromIs(body, '_', 0, |date|);
    FindFromIs(body, '_', |date| + 1, |date| + 1 + |tag|);
    assert body[|date| + |tag| + 2..] == name;
    assert body[..|date|] == date;
    assert body[|date| + 1..|date| + 1 + |tag|] == tag;
  }

  function MatchJson(base: string): (r: Option<(string, string)>)
    ensures r.Some? ==> JsonForm(base, r.value.0, r.value.1)
  {
    if !EndsWith(base, ".json") then None
    else
      var body := base[..|base| - 5];
      var i := FindFrom(body, '_', 0);
      if i <= 0 || i + 1 == |body| || !OnOneLine(body[i + 1..]) then None
      else
        assert body == body[..i] + "_" + body[i + 1..];
        assert base == body + ".json";
        Some((body[..i], body[i + 1..]))
  }

  lemma MatchJsonComplete(base: string, date: string, name: string)
    requires JsonForm(base, date, name)
    ensures MatchJson(base) == Some((date, name))
  {
    var body := date + "_" + name;
    assert base == body + ".json";
    assert base[..|base| - 5] == body;
    assert base[|base| - 5..] == ".json";
    FindFromIs(body, '_', 0, |date|);
    assert body[|date| + 1..] == name;
    assert body[..|date|] == date;
  }

  function MatchDeltaDir(dir: string): (r: Option<(string, string)>)
    ensures r.Some? ==> DeltaDirForm(dir, r.value.0, r.value.1)
  {
    if !StartsWith(dir, "vm_delta_") then None
    else
      var rest := dir[9..];
      var i := FindFrom(rest, '_', 0);
      if i <= 0 || i + 1 == |rest| || !OnOneLine(rest[i + 1..]) then None
      else
        assert rest == rest[..i] + "_" + rest[i + 1..];
        assert dir == "vm_delta_" + rest;
        Some((rest[..i], rest[i + 1..]))
  }

  lemma MatchDeltaDirComplete(dir: string, tag: string, uuid: string)
    requires DeltaDirForm(dir, tag, uuid)
    ensures MatchDeltaDir(dir) == Some((tag, uuid))
  {
    var rest := tag + "_" + uuid;
    assert dir == "vm_delta_" + rest;
    assert dir[..9] == "vm_delta_";
    assert dir[9..] == rest;
    FindFromIs(rest, '_', 0, |tag|);
    assert rest[|tag| + 1..] == uuid;
    assert rest[..|tag|] == tag;
  }

  // -----------------------------------------------------------------
  // parseVmBackupPath

  /** A backup found on a remote; `date` is the text that
      `safeDateParse` turns into the record's timestamp. */
  datatype BackupRecord =
    | Xva(date: string, id: string, name: string, tag: string)
    | Delta(date: string, id: string, name: string, tag: string, uuid: string)

  datatype BackupError = InvalidVmBackupFilename

  /** A full export `<date>_<tag>_<name>.xva`, else a delta backup
      `vm_delta_<tag>_<uuid>/<date>_<name>.json`, else an error. */
  function ParseVmBackupPath(path: string): (r: Result<BackupRecord, BackupError>)
    ensures r.Ok? ==> r.value.id == path
    ensures r.Ok? && r.value.Xva? ==> XvaForm(Basename(path), r.value.date, r.value.tag, r.value.name)
    ensures r.Ok? && r.value.Delta? ==>
      && JsonForm(Basename(path), r.value.date, r.value.name)
      && DeltaDirForm(Basename(Dirname(path)), r.value.tag, r.value.uuid)
  {
    var base := Basename(path);
    match MatchXva(base)
    case Some((date, tag, name)) => Ok(Xva(date, path, name, tag))
    case None =>
      match (MatchJson(base), MatchDeltaDir(Basename(Dirname(path))))
      case (Some((date, name)), Some((tag, uuid))) => Ok(Delta(date, path, name, tag, uuid))
      case _ => Err(InvalidVmBackupFilename)
  }

  /** Every name of the full-export form parses as one. */
  lemma ParseXva(path: string, date: string, tag: string, name: string)
    requires XvaForm(Basename(path), date, tag, name)
    ensures ParseVmBackupPath(path) == Ok(Xva(date, path, name, tag))
  {
    MatchXvaComplete(Basename(path), date, tag, name);
  }

  /** A path of the delta form that is not a full export parses as a
      delta backup. */
  lemma ParseDelta(path: string, date: string, name: string, tag: string, uuid: string)
    requires JsonForm(Basename(path), date, name)
    requires DeltaDirForm(Basename(Dirname(path)), tag, uuid)
    ensures ParseVmBackupPath(path) == Ok(Delta(date, path, name, tag, uuid))
  {
    MatchJsonComplete(Basename(path), date, name);
    MatchDeltaDirComplete(Basename(Dirname(path)), tag, uuid);
    assert MatchXva(Basename(path)).None? by {
      assert !EndsWith(Basename(path), ".xva") by {
        var b := Basename(path);
        assert b[|b| - 1] == 'n';
      }
    }
  }

  /** A path fitting neither form is rejected. */
  lemma ParseInvalid(path: string)
    requires forall d, t, n :: !XvaForm(Basename(path), d, t, n)
    requires (forall d, n :: !JsonForm(Basename(path), d, n)) || (forall t, u :: !DeltaDirForm(Basename(Dirname(path)), t, u))
    ensures ParseVmBackupPath(path) == Err(InvalidVmBackupFilename)
  {
  }

  // -----------------------------------------------------------------
  // Names written by the rolling jobs

  predicate IsDigit(c: char) {
    '0' <= c <= '9'
  }

  /** What `safeDateFormat` writes: `%Y%m%dT%H%M%SZ`, which is also what
      `[0-9]{8}T[0-9]{6}Z` accepts. */
  predicate IsSafeDate(s: string) {
    && |s| == 16
    && (forall k :: 0 <= k < 8 ==> IsDigit(s[k]))
    && s[8] == 'T'
    && (forall k :: 9 <= k < 15 ==> IsDigit(s[k]))
    && s[15] == 'Z'
  }

  lemma SafeDateChars(s: string)
    requires IsSafeDate(s)
    ensures Lacks(s, '_') && Lacks(s, '/') && |s| > 0
  {
  }

  /** The file `rollingBackupVm` writes. */
  function RollingBackupName(date: string, tag: string, vmName: string): string {
    date + "_" + tag + "_" + vmName + ".xva"
  }

  /** A rolling backup lists back with its tag and VM name when the tag
      has no `_` and neither part has a `/`. */
  lemma RollingBackupRoundTrip(date: string, tag: string, vmName: string)
    requires IsSafeDate(date)
    requires |tag| > 0 && Lacks(tag, '_') && Lacks(tag, '/')
    requires |vmName| > 0 && Lacks(vmName, '/') && OnOneLine(vmName)
    ensures ParseVmBackupPath(RollingBackupName(date, tag, vmName)) == Ok(Xva(date, RollingBackupName(date, tag, vmName), vmName, tag))
  {
    var f := RollingBackupName(date, tag, vmName);
    SafeDateChars(date);
    assert Lacks(f, '/') by {
      forall k | 0 <= k < |f|
        ensures f[k] != '/'
      {
        if k < |date| { assert f[k] == date[k]; }
        else if k == |date| { }
        else if k < |date| + 1 + |tag| { assert f[k] == tag[k - |date| - 1]; }
        else if k == |date| + 1 + |tag| { }
        else if k < |date| + 2 + |tag| + |vmName| { assert f[k] == vmName[k - |date| - 2 - |tag|]; }
        else { assert f[k] == ".xva"[k - |date| - 2 - |tag| - |vmName|]; }
      }
    }
    ParseXva(f, date, tag, vmName);
  }

  /** `'^[^_]+_' + escape(tag + '_' + vmName + '.xva')`, unanchored at the
      end: the backups of this job. */
  predicate IsBackupOf(file: string, tag: string, vmName: string) {
    var i := FindFrom(file, '_', 0);
    i > 0 && StartsWith(file[i + 1..], tag + "_" + vmName + ".xva")
  }

  /** The backup just written is among those the job considers. */
  lemma RollingBackupIsOwn(date: string, tag: string, vmName: string)
    requires IsSafeDate(date)
    ensures IsBackupOf(RollingBackupName(date, tag, vmName), tag, vmName)
  {
    var f := RollingBackupName(date, tag, vmName);
    SafeDateChars(date);
    FindFromIs(f, '_', 0, |date|);
    assert f[|date| + 1..] == tag + "_" + vmName + ".xva";
  }

  /** The snapshot `rollingSnapshotVm` takes. */
  function RollingSnapshotName(date: string, tag: string, vmName: string): string {
    "rollingSnapshot_" + date + "_" + tag + "_" + vmName
  }

  /** `'^rollingSnapshot_[^_]+_' + escape(tag) + '_'`. */
  predicate IsRollingSnapshotOf(name: string, tag: string) {
    && StartsWith(name, "rollingSnapshot_")
    && var rest := name[16..];
       var i := FindFrom(rest, '_', 0);
       i > 0 && StartsWith(rest[i + 1..], tag + "_")
  }

  lemma RollingSnapshotIsOwn(date: string, tag: string, vmName: string)
    requires IsSafeDate(date)
    ensures IsRollingSnapshotOf(RollingSnapshotName(date, tag, vmName), tag)
  {
    var name := RollingSnapshotName(date, tag, vmName);
    SafeDateChars(date);
    assert name[..16] == "rollingSnapshot_";
    var rest := name[16..];
    assert rest == date + "_" + tag + "_" + vmName;
    FindFromIs(rest, '_', 0, |date|);
    assert rest[|date| + 1..] == tag + "_" + vmName;
  }

  /** The copy `rollingDrCopyVm` makes, tagged `DR_<tag>`. */
  function DrCopyName(vmName: string, tag: string, date: string): string {
    vmName + "_" + "DR_" + tag + "_" + date
  }

  /** `'^' + escape(vmName + '_DR_' + tag + '_') + '[0-9]{8}T[0-9]{6}Z$'`. */
  predicate IsDrCopyOf(name: string, vmName: string, tag: string) {
    var prefix := vmName + "_" + "DR_" + tag + "_";
    |name| == |prefix| + 16 && name[..|prefix|] == prefix && IsSafeDate(name[|prefix|..])
  }

  lemma DrCopyIsOwn(vmName: string, tag: string, date: string)
    requires IsSafeDate(date)
    ensures IsDrCopyOf(DrCopyName(vmName, tag, date), vmName, tag)
  {
    var prefix := vmName + "_" + "DR_" + tag + "_";
    assert DrCopyName(vmName, tag, date) == prefix + date;
    assert (prefix + date)[|prefix|..] == date;
  }

  // -----------------------------------------------------------------
  // Retention

  /** The end index of `slice(0, n)`: a negative `n` counts from the end. */
  function SliceEnd(length: nat, n: int): (e: nat)
    ensures e <= length
    ensures n >= 0 ==> e == if n < length then n else length
    ensures n < 0 ==> e == if length + n > 0 then length + n else 0
  {
    if n < 0 then (if length + n > 0 then length + n else 0)
    else if n < length then n else length
  }

  /** The older copies `rollingDrCopyVm` deletes, oldest first:
      `n ? olderCopies.slice(0, n) : olderCopies` with `n = 1 - retention`. */
  function DrCopiesToDelete<T>(olderCopies: seq<T>, retention: int): (r: seq<T>)
    ensures r <= olderCopies
  {
    var n := 1 - retention;
    if n != 0 then olderCopies[..SliceEnd(|olderCopies|, n)] else olderCopies
  }

  /** With a retention of at least one, the newest `retention - 1` older
      copies survive besides the new one, and the rest are deleted. */
  lemma DrRetention<T>(olderCopies: seq<T>, retention: int)
    requires retention >= 1
    ensures |olderCopies| - |DrCopiesToDelete(olderCopies, retention)| ==
      if retention - 1 < |olderCopies| then retention - 1 else |olderCopies|
    ensures retention == 1 ==> DrCopiesToDelete(olderCopies, retention) == olderCopies
  {
  }

  datatype RetentionError = InvalidArrayLength(length: int)

  /** `list.length = n` with `n` no greater than the length: a negative
      length is a RangeError, otherwise the list is cut to its first `n`. */
  function Truncate<T>(list: seq<T>, n: int): (r: Result<seq<T>, RetentionError>)
    requires n <= |list|
    ensures n < 0 <==> r.Err?
    ensures r.Ok? ==> r.value == list[..n]
  {
    if n < 0 then Err(InvalidArrayLength(n)) else Ok(list[..n])
  }

  function Min(a: int, b: int): int {
    if a < b then a else b
  }

  function Max(a: int, b: int): int {
    if a < b then b else a
  }

  /** The existing rolling snapshots `rollingSnapshotVm` deletes, as
      written: the list sorted by name is cut to
      `Math.min(0, 1 + length - retention)` entries. */
  function SnapshotsToDeleteAsWritten<T>(snapshots: seq<T>, retention: int): (r: Result<seq<T>, RetentionError>)
  {
    Truncate(snapshots, Min(0, 1 + |snapshots| - retention))
  }

  /** As written, the cut deletes nothing, and fails outright when fewer
      than `retention - 1` snapshots exist. */
  lemma SnapshotsAsWrittenDeleteNothing<T>(snapshots: seq<T>, retention: int)
    ensures SnapshotsToDeleteAsWritten(snapshots, retention).Err? <==> |snapshots| + 1 < retention
    ensures SnapshotsToDeleteAsWritten(snapshots, retention).Ok? ==> SnapshotsToDeleteAsWritten(snapshots, retention).value == []
  {
  }

  /** Three snapshots and a retention of two: two should go, none does. */
  lemma SnapshotsAsWrittenKeepTooMany()
    ensures SnapshotsToDeleteAsWritten(["a", "b", "c"], 2) == Ok([])
    ensures SnapshotsToDelete(["a", "b", "c"], 2) == ["a", "b"]
  {
    assert ["a", "b", "c"][..2] == ["a", "b"];
  }

  /** The intended cut, `Math.max(0, 1 + length - retention)`: the oldest
      snapshots go. */
  function SnapshotsToDelete<T>(snapshots: seq<T>, retention: int): (r: seq<T>)
    ensures r <= snapshots
  {
    snapshots[..Min(|snapshots|, Max(0, 1 + |snapshots| - retention))]
  }

  /** With the new snapshot, `retention` rolling snapshots remain, or all
      of them when there are fewer. */
  lemma SnapshotRetention<T>(snapshots: seq<T>, retention: int)
    requires retention >= 1
    ensures |snapshots| - |SnapshotsToDelete(snapshots, retention)| + 1 == Min(|snapshots| + 1, retention)
  {
  }

  /** The backups of the job `rollingBackupVm` removes, as written: the
      sorted list, new backup included, is cut to
      `Math.min(0, length - retention)` entries. */
  function BackupsToDeleteAsWritten<T>(backups: seq<T>, retention: int): (r: Result<seq<T>, RetentionError>)
  {
    Truncate(backups, Min(0, |backups| - retention))
  }

  lemma BackupsAsWrittenDeleteNothing<T>(backups: seq<T>, retention: int)
    ensures BackupsToDeleteAsWritten(backups, retention).Err? <==> |backups| < retention
    ensures BackupsToDeleteAsWritten(backups, retention).Ok? ==> BackupsToDeleteAsWritten(backups, retention).value == []
  {
  }

  /** Three backups and a retention of one: two should go, none does; a
      retention of five fails. */
  lemma BackupsAsWrittenKeepTooMany()
    ensures BackupsToDeleteAsWritten(["a", "b", "c"], 1) == Ok([])
    ensures BackupsToDelete(["a", "b", "c"], 1) == ["a", "b"]
    ensures BackupsToDeleteAsWritten(["a", "b", "c"], 5) == Err(InvalidArrayLength(-2))
  {
    assert ["a", "b", "c"][..2] == ["a", "b"];
  }

  /** The intended cut, `Math.max(0, length - retention)`. */
  function BackupsToDelete<T>(backups: seq<T>, retention: int): (r: seq<T>)
    ensures r <= backups
  {
    backups[..Min(|backups|, Max(0, |backups| - retention))]
  }

  /** `retention` backups remain, or all of them when there are fewer. */
  lemma BackupRetention<T>(backups: seq<T>, retention: int)
    requires retention >= 0
    ensures |backups| - |BackupsToDelete(backups, retention)| == Min(|backups|, retention)
  {
  }
}
