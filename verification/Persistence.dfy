/**
 * Snapshot files and backups of the data pool (src/PersistentStorage.cpp). The file system is a map
 * from paths to files; clocks and the outcome of opening a file for writing are inputs.
 */
module Persistence {
  import opened Common
  import opened SnapshotChecksum

  const PERSIST_MAGIC: nat := 0x50455253
  const PERSIST_VERSION: nat := 1

  datatype Counts = Counts(yx: nat, yc: nat, dz: nat, yk: nat)

  datatype Header = Header(magic: nat, version: nat, snapshotTime: nat, shmSize: nat,
                           counts: Counts, indexCount: nat, checksum: Sum)

  datatype SnapshotFile = SnapshotFile(mtime: nat, header: Header, payload: seq<byte>)

  datatype Path = Path(dir: string, name: string)

  type Files = map<Path, SnapshotFile>

  /** What reading n bytes into a zero-filled buffer gives. */
  function Fit(payload: seq<byte>, n: nat): (buffer: seq<byte>)
    ensures |buffer| == n
  {
    if n <= |payload| then payload[..n] else payload + seq(n - |payload|, _ => 0)
  }

  /** The data a file restores into a pool with the given point counts and n data bytes, if it is accepted. */
  function Loaded(counts: Counts, n: nat, file: SnapshotFile): Option<seq<byte>> {
    if file.header.magic == PERSIST_MAGIC && file.header.version == PERSIST_VERSION
       && file.header.counts == counts && Checksum(Fit(file.payload, n)) == file.header.checksum
    then Some(Fit(file.payload, n))
    else None
  }

  function Saved(counts: Counts, indexCount: nat, shmSize: nat, data: seq<byte>, now: nat, mtime: nat): SnapshotFile {
    SnapshotFile(mtime, Header(PERSIST_MAGIC, PERSIST_VERSION, now, shmSize, counts, indexCount, Checksum(data)), data)
  }

  /** The bytes of the file that go into n bytes of data: a short payload is filled up with zeros, a long one cut off. */
  ghost predicate Fills(payload: seq<byte>, data: seq<byte>) {
    forall i :: 0 <= i < |data| ==> data[i] == if i < |payload| then payload[i] else 0
  }

  /**
   * A file is accepted exactly when it has the magic number and version of snapshot files, the point counts
   * of the pool and the checksum of the bytes that would be restored, and then gives these bytes.
   */
  lemma AcceptedFiles(counts: Counts, n: nat, file: SnapshotFile, data: seq<byte>)
    requires |data| == n && Fills(file.payload, data)
    ensures Loaded(counts, n, file) ==
            if file.header.magic == 0x50455253 && file.header.version == 1 && file.header.counts == counts
               && file.header.checksum == Checksum(data) then Some(data) else None
  {
    assert Fit(file.payload, n) == data;
  }

  /** An intact file restores exactly the saved bytes into any pool with the same counts and size. */
  lemma SaveThenLoad(counts: Counts, indexCount: nat, shmSize: nat, data: seq<byte>, now: nat, mtime: nat)
    ensures Loaded(counts, |data|, Saved(counts, indexCount, shmSize, data, now, mtime)) == Some(data)
  {
    assert data[..|data|] == data;
  }

  /** A saved file with one payload byte overwritten is accepted exactly when the byte is the same. */
  lemma AlteredByteRejected(counts: Counts, indexCount: nat, shmSize: nat, data: seq<byte>, now: nat, mtime: nat,
                            k: nat, b: byte)
    requires k < |data|
    ensures var file := Saved(counts, indexCount, shmSize, data, now, mtime);
            Loaded(counts, |data|, file.(payload := data[k := b])).Some? <==> b == data[k]
  {
    assert data[k := b][..|data|] == data[k := b];
    OneByteChanged(data, k, b);
  }

  /** A saved file that lost its last byte is accepted exactly when that byte was zero, and then loses nothing. */
  lemma LastByteLost(counts: Counts, indexCount: nat, shmSize: nat, data: seq<byte>, now: nat, mtime: nat)
    requires data != []
    ensures var file := Saved(counts, indexCount, shmSize, data, now, mtime);
            var short := file.(payload := data[..|data| - 1]);
            Loaded(counts, |data|, short) == if data[|data| - 1] == 0 then Some(data) else None
  {
    var k := |data| - 1;
    assert data[..k] + seq(1, _ => 0) == data[k := 0];
    OneByteChanged(data, k, 0);
    if data[k] == 0 {
      assert data[k := 0] == data;
    }
  }

  // ---------- Backups ----------

  predicate StartsWith(s: string, prefix: string) {
    |prefix| <= |s| && s[..|prefix|] == prefix
  }

  predicate Contains(s: string, part: string) {
    StartsWith(s, part) || (s != [] && Contains(s[1..], part))
  }

  predicate IsBackup(dir: string, p: Path) {
    p.dir == dir && StartsWith(p.name, "backup_") && Contains(p.name, ".snapshot")
  }

  /** The name begins with "backup_" and has ".snapshot" somewhere in it. */
  ghost predicate BackupName(name: string) {
    && |name| >= 7 && name[..7] == "backup_"
    && exists i :: 0 <= i <= |name| - 9 && name[i..][..9] == ".snapshot"
  }

  lemma {:induction false} ContainsMeans(s: string, part: string)
    ensures Contains(s, part) <==> exists i :: 0 <= i <= |s| - |part| && s[i..][..|part|] == part
    decreases |s|
  {
    if StartsWith(s, part) {
      assert s[0..][..|part|] == part;
    } else if s == [] {
    } else {
      ContainsMeans(s[1..], part);
      forall i | 0 < i <= |s| - |part| ensures s[i..][..|part|] == s[1..][i - 1..][..|part|] {
        assert s[i..] == s[1..][i - 1..];
      }
      if j :| 0 <= j <= |s[1..]| - |part| && s[1..][j..][..|part|] == part {
        assert s[j + 1..][..|part|] == part;
      }
    }
  }

  /** Exactly the files of the directory with such a name are backups. */
  lemma BackupsAreNamed(dir: string, p: Path)
    ensures IsBackup(dir, p) <==> p.dir == dir && BackupName(p.name)
  {
    ContainsMeans(p.name, ".snapshot");
  }

  lemma BackupsAreNamedIn(files: Files, dir: string)
    ensures forall p :: p in Backups(files, dir) <==> p in files && p.dir == dir && BackupName(p.name)
  {
    forall p ensures p in Backups(files, dir) <==> p in files && p.dir == dir && BackupName(p.name) {
      BackupsAreNamed(dir, p);
    }
  }

  /** The backup files among the entries of a directory listing. */
  function Select(entries: set<Path>, dir: string): set<Path> {
    set p | p in entries && IsBackup(dir, p)
  }

  function Backups(files: Files, dir: string): set<Path> {
    Select(files.Keys, dir)
  }

  lemma SelectOneMore(entries: set<Path>, dir: string, p: Path)
    requires p !in entries
    ensures multiset(Select(entries + {p}, dir)) ==
            if IsBackup(dir, p) then multiset(Select(entries, dir)) + multiset{p} else multiset(Select(entries, dir))
  {
    if IsBackup(dir, p) {
      assert Select(entries + {p}, dir) == Select(entries, dir) + {p};
    } else {
      assert Select(entries + {p}, dir) == Select(entries, dir);
    }
  }

  ghost predicate NewestFirst(files: Files, list: seq<Path>)
    requires forall p :: p in list ==> p in files
  {
    forall i, j :: 0 <= i < j < |list| ==> files[list[i]].mtime >= files[list[j]].mtime
  }

  /** The list holds every backup file once, newest first; files of equal age may come in any order. */
  ghost predicate IsBackupList(files: Files, dir: string, list: seq<Path>) {
    && multiset(list) == multiset(Backups(files, dir))
    && (forall p :: p in list ==> p in files)
    && NewestFirst(files, list)
  }

  ghost predicate DistinctTimes(files: Files, dir: string) {
    forall p, q :: p in Backups(files, dir) && q in Backups(files, dir) && p != q ==> files[p].mtime != files[q].mtime
  }

  function Insert(files: Files, p: Path, list: seq<Path>): (r: seq<Path>)
    requires p in files && forall q :: q in list ==> q in files
    ensures multiset(r) == multiset(list) + multiset{p}
    ensures forall q :: q in r ==> q in files
  {
    if list == [] then [p]
    else if files[p].mtime >= files[list[0]].mtime then
      assert [p] + list == [p] + list;
      [p] + list
    else
      assert list == [list[0]] + list[1..];
      assert forall q :: q in multiset(list) + multiset{p} ==> q in files;
      var r := [list[0]] + Insert(files, p, list[1..]);
      assert forall q :: q in r ==> q in multiset(r);
      r
  }

  lemma {:induction false} InsertSorted(files: Files, p: Path, list: seq<Path>)
    requires p in files && forall q :: q in list ==> q in files
    requires NewestFirst(files, list)
    ensures NewestFirst(files, Insert(files, p, list))
  {
    if list != [] && files[p].mtime < files[list[0]].mtime {
      var rest := Insert(files, p, list[1..]);
      InsertSorted(files, p, list[1..]);
      forall j | 0 <= j < |rest| ensures files[list[0]].mtime >= files[rest[j]].mtime {
        assert rest[j] in multiset(rest);
        if rest[j] != p {
          assert rest[j] in list[1..];
        }
      }
    }
  }

  ghost predicate AllDistinct(files: Files, list: seq<Path>)
    requires forall p :: p in list ==> p in files
  {
    forall p, q :: p in list && q in list && p != q ==> files[p].mtime != files[q].mtime
  }

  lemma SameMembers(a: seq<Path>, b: seq<Path>)
    requires multiset(a) == multiset(b)
    ensures |a| == |b| && forall p :: p in a <==> p in b
  {
    assert |multiset(a)| == |a| && |multiset(b)| == |b|;
    assert forall p :: p in a <==> p in multiset(a);
  }

  lemma SameNewest(files: Files, a: seq<Path>, b: seq<Path>)
    requires multiset(a) == multiset(b) && a != [] && b != []
    requires (forall p :: p in a ==> p in files) && (forall p :: p in b ==> p in files)
    requires NewestFirst(files, a) && NewestFirst(files, b) && AllDistinct(files, a)
    ensures a[0] == b[0]
  {
    SameMembers(a, b);
    assert a[0] in b && b[0] in a;
    assert files[b[0]].mtime >= files[a[0]].mtime >= files[b[0]].mtime;
  }

  lemma DropFirst(files: Files, a: seq<Path>)
    requires a != [] && (forall p :: p in a ==> p in files) && NewestFirst(files, a)
    ensures multiset(a[1..]) == multiset(a) - multiset{a[0]}
    ensures (forall p :: p in a[1..] ==> p in a) && NewestFirst(files, a[1..])
  {
    assert a == [a[0]] + a[1..];
  }

  lemma DropBoth(files: Files, a: seq<Path>, b: seq<Path>)
    requires multiset(a) == multiset(b) && a != [] && b != [] && a[0] == b[0]
    requires (forall p :: p in a ==> p in files) && (forall p :: p in b ==> p in files)
    requires NewestFirst(files, a) && NewestFirst(files, b) && AllDistinct(files, a)
    ensures multiset(a[1..]) == multiset(b[1..])
    ensures (forall p :: p in a[1..] ==> p in files) && (forall p :: p in b[1..] ==> p in files)
    ensures NewestFirst(files, a[1..]) && NewestFirst(files, b[1..]) && AllDistinct(files, a[1..])
  {
    DropFirst(files, a);
    DropFirst(files, b);
  }

  /** With distinct modification times there is only one such list. */
  lemma {:induction false} BackupListUnique(files: Files, a: seq<Path>, b: seq<Path>)
    requires multiset(a) == multiset(b)
    requires (forall p :: p in a ==> p in files) && (forall p :: p in b ==> p in files)
    requires NewestFirst(files, a) && NewestFirst(files, b) && AllDistinct(files, a)
    ensures a == b
    decreases |a|
  {
    SameMembers(a, b);
    if a == [] {
    } else {
      SameNewest(files, a, b);
      DropBoth(files, a, b);
      BackupListUnique(files, a[1..], b[1..]);
      assert a == [a[0]] + a[1..] && b == [b[0]] + b[1..];
    }
  }

  /** Deleting all but the first k files of the list leaves exactly those k backups, in the same order. */
  lemma CleanupKeepsNewest(files: Files, dir: string, list: seq<Path>, k: nat)
    requires IsBackupList(files, dir, list) && k <= |list|
    ensures IsBackupList(files - (set p | p in list[k..]), dir, list[..k])
  {
    var front, back := list[..k], list[k..];
    var gone := set p | p in back;
    assert list == front + back;
    SplitList(Backups(files, dir), front, back);
    assert Backups(files - gone, dir) == Backups(files, dir) - gone;
    PrefixStaysSorted(files, list, k, files - gone, dir);
  }

  lemma PrefixStaysSorted(files: Files, list: seq<Path>, k: nat, left: Files, dir: string)
    requires (forall p :: p in list ==> p in files) && NewestFirst(files, list) && k <= |list|
    requires forall p :: p in left ==> p in files && left[p] == files[p]
    requires multiset(list[..k]) == multiset(Backups(left, dir))
    ensures (forall p :: p in list[..k] ==> p in left) && NewestFirst(left, list[..k])
  {
    forall p | p in list[..k] ensures p in left {
      assert p in multiset(list[..k]);
    }
    forall i, j | 0 <= i < j < k ensures left[list[i]].mtime >= left[list[j]].mtime {
      assert list[..k][i] in list[..k] && list[..k][j] in list[..k];
    }
  }

  /** A list without repetitions splits into two lists without common members. */
  lemma SplitList(all: set<Path>, front: seq<Path>, back: seq<Path>)
    requires multiset(front + back) == multiset(all)
    ensures multiset(front) == multiset(all - (set p | p in back))
  {
    var gone := set p | p in back;
    forall p ensures multiset(front)[p] == multiset(all - gone)[p] {
      assert multiset(front + back)[p] == multiset(front)[p] + multiset(back)[p];
      assert multiset(all)[p] == if p in all then 1 else 0;
      assert p in back <==> multiset(back)[p] > 0;
    }
  }

  /** The files after the first k of a newest-first list are no newer than the others in it. */
  lemma RemovedAreOlder(files: Files, list: seq<Path>, k: nat)
    requires (forall p :: p in list ==> p in files) && NewestFirst(files, list) && k <= |list|
    ensures forall p, q :: p in list[k..] && q in list && q !in list[k..] ==> files[q].mtime >= files[p].mtime
  {
    forall j | k <= j < |list| ensures list[j] in list[k..] {
      assert list[k..][j - k] == list[j];
    }
    forall p, q | p in list[k..] && q in list && q !in list[k..] ensures files[q].mtime >= files[p].mtime {
      var i :| 0 <= i < |list| - k && list[k..][i] == p;
      var j :| 0 <= j < |list| && list[j] == q;
    }
  }

  /**
   * With distinct modification times, cleaning up does not change what the i-th newest backup is, nor
   * its content, for the backups that are kept.
   */
  lemma KeptBackupsRestoreTheSame(files: Files, dir: string, before: seq<Path>, after: seq<Path>, k: nat, i: nat)
    requires IsBackupList(files, dir, before) && DistinctTimes(files, dir) && i < k <= |before|
    requires var files' := files - (set p | p in before[k..]); IsBackupList(files', dir, after)
    ensures var files' := files - (set p | p in before[k..]);
            |after| == k && after[i] == before[i] && after[i] in files' && files'[after[i]] == files[before[i]]
  {
    var files' := files - (set p | p in before[k..]);
    CleanupKeepsNewest(files, dir, before, k);
    forall p | p in after ensures p in Backups(files, dir) {
      assert p in multiset(after);
    }
    BackupListUnique(files', after, before[..k]);
    assert after[i] in after;
  }

  /** What restoring from the i-th file of a list does to the data region. */
  ghost predicate RestoresFrom(files: Files, list: seq<Path>, i: nat, counts: Counts, was: seq<byte>, r: Result, now: seq<byte>)
    requires forall p :: p in list ==> p in files
  {
    if i >= |list| then r == NOT_FOUND && now == was
    else match Loaded(counts, |was|, files[list[i]])
         case None => r == ERROR && now == was
         case Some(data) => r == OK && now == data
  }

  /** What restoring from the i-th newest backup does. */
  ghost predicate RestoresIth(files: Files, dir: string, i: nat, counts: Counts, was: seq<byte>, r: Result, now: seq<byte>) {
    exists list :: IsBackupList(files, dir, list) && RestoresFrom(files, list, i, counts, was, r, now)
  }

  /** All backups after the first k of the list are gone, and no other file is. */
  ghost predicate CleanedUp(files: Files, dir: string, k: nat, left: Files) {
    exists list :: IsBackupList(files, dir, list) && left == files - (set p | p in list[Min(k, |list|)..])
  }

  lemma BackupListIs(files: Files, dir: string, a: seq<Path>, b: seq<Path>)
    requires DistinctTimes(files, dir) && IsBackupList(files, dir, a) && IsBackupList(files, dir, b)
    ensures a == b
  {
    forall p | p in a ensures p in Backups(files, dir) {
      assert p in multiset(a);
    }
    BackupListUnique(files, a, b);
  }

  /** The i-th entry of the list before and after clean-up: the same file, or none. */
  lemma SameIth(files: Files, dir: string, before: seq<Path>, after: seq<Path>, k: nat, i: nat)
    requires DistinctTimes(files, dir) && IsBackupList(files, dir, before) && i < k
    requires IsBackupList(files - (set p | p in before[Min(k, |before|)..]), dir, after)
    ensures i < |before| <==> i < |after|
    ensures var left := files - (set p | p in before[Min(k, |before|)..]);
            i < |after| ==> left[after[i]] == files[before[i]]
  {
    var n := Min(k, |before|);
    CleanupKeepsNewest(files, dir, before, n);
    SameMembers(before[..n], after);
    if i < n {
      KeptBackupsRestoreTheSame(files, dir, before, after, n, i);
    }
  }

  /** Restoring is determined by the file. */
  lemma RestoresAlike(files: Files, a: seq<Path>, left: Files, b: seq<Path>, i: nat, counts: Counts,
                      was: seq<byte>, r: Result, now: seq<byte>, was': seq<byte>, r': Result, now': seq<byte>)
    requires (forall p :: p in a ==> p in files) && (forall p :: p in b ==> p in left) && |was| == |was'|
    requires (i < |a| <==> i < |b|) && (i < |b| ==> files[a[i]] == left[b[i]])
    requires RestoresFrom(files, a, i, counts, was, r, now) && RestoresFrom(left, b, i, counts, was', r', now')
    ensures r == r' && (r == OK ==> now == now')
  {
  }

  /** Restoring from a backup that clean-up keeps gives the same result and the same data before and after it. */
  lemma RestoreSurvivesCleanup(files: Files, left: Files, dir: string, k: nat, i: nat, counts: Counts,
                               was: seq<byte>, r: Result, now: seq<byte>, was': seq<byte>, r': Result, now': seq<byte>)
    requires DistinctTimes(files, dir) && CleanedUp(files, dir, k, left) && i < k && |was| == |was'|
    requires RestoresIth(files, dir, i, counts, was, r, now) && RestoresIth(left, dir, i, counts, was', r', now')
    ensures r == r' && (r == OK ==> now == now')
  {
    var list :| IsBackupList(files, dir, list) && left == files - (set p | p in list[Min(k, |list|)..]);
    var a :| IsBackupList(files, dir, a) && RestoresFrom(files, a, i, counts, was, r, now);
    var b :| IsBackupList(left, dir, b) && RestoresFrom(left, b, i, counts, was', r', now');
    BackupListIs(files, dir, a, list);
    SameIth(files, dir, a, b, k, i);
    RestoresAlike(files, a, left, b, i, counts, was, r, now, was', r', now');
  }

  class DataPool {
    const data: array<byte>
    var counts: Counts
    var indexCount: nat
    var shmSize: nat

    constructor (size: nat, counts: Counts, indexCount: nat, shmSize: nat)
      ensures data.Length == size && fresh(data)
      ensures this.counts == counts && this.indexCount == indexCount && this.shmSize == shmSize
    {
      data := new byte[size];
      this.counts, this.indexCount, this.shmSize := counts, indexCount, shmSize;
    }
  }

  class PersistentStorage {
    const pool: DataPool
    const snapshotPath: Path
    const backupDir: string
    var attached: bool   // the pool is present and valid
    var files: Files

    constructor (pool: DataPool, snapshotPath: Path, backupDir: string, files: Files)
      ensures this.pool == pool && this.snapshotPath == snapshotPath && this.backupDir == backupDir
      ensures attached && this.files == files
    {
      this.pool, this.snapshotPath, this.backupDir, this.files := pool, snapshotPath, backupDir, files;
      attached := true;
    }

    method SaveSnapshot(filename: Option<Path>, now: nat, mtime: nat, canOpen: bool) returns (r: Result)
      modifies this`files
      ensures r == if !attached then NOT_INITIALIZED else if canOpen then OK else ERROR
      ensures r != OK ==> files == old(files)
      ensures r == OK ==>
                var path := if filename.Some? then filename.value else snapshotPath;
                && files == old(files)[path := Saved(pool.counts, pool.indexCount, pool.shmSize, pool.data[..], now, mtime)]
                && files[path].payload == pool.data[..] && files[path].mtime == mtime
                && files[path].header ==
                   Header(0x50455253, 1, now, pool.shmSize, pool.counts, pool.indexCount, Checksum(pool.data[..]))
    {
      if !attached {
        return NOT_INITIALIZED;
      }
      var path := if filename.Some? then filename.value else snapshotPath;
      var checksum := CalculateChecksum(pool.data);
      if !canOpen {
        return ERROR;
      }
      var header := Header(PERSIST_MAGIC, PERSIST_VERSION, now, pool.shmSize, pool.counts, pool.indexCount, Sum(checksum));
      files := files[path := SnapshotFile(mtime, header, pool.data[..])];
      return OK;
    }

    /** Nothing is written to the pool before every test has been passed. */
    method ReadSnapshotFile(path: Path) returns (r: Result)
      modifies pool.data
      ensures path !in files ==> r == NOT_FOUND && pool.data[..] == old(pool.data[..])
      ensures path in files ==>
                match Loaded(pool.counts, pool.data.Length, files[path])
                case None => r == ERROR && pool.data[..] == old(pool.data[..])
                case Some(data) => r == OK && pool.data[..] == data
      ensures r == OK ==>
                var header := files[path].header;
                && header.magic == 0x50455253 && header.version == 1 && header.counts == pool.counts
                && header.checksum == Checksum(pool.data[..]) && Fills(files[path].payload, pool.data[..])
    {
      if path !in files {
        return NOT_FOUND;
      }
      var file := files[path];
      if file.header.magic != PERSIST_MAGIC || file.header.version != PERSIST_VERSION {
        return ERROR;
      }
      if file.header.counts != pool.counts {
        return ERROR;
      }
      var n := pool.data.Length;
      var bytes := Fit(file.payload, n);
      var buffer := new byte[n](i requires 0 <= i < n => bytes[i]);
      assert buffer[..] == bytes;
      var checksum := CalculateChecksum(buffer);
      if Sum(checksum) != file.header.checksum {
        return ERROR;
      }
      for i := 0 to n
        invariant pool.data[..i] == bytes[..i]
        invariant buffer[..] == bytes
      {
        pool.data[i] := buffer[i];
      }
      return OK;
    }

    method GetBackupList() returns (list: seq<Path>)
      ensures IsBackupList(files, backupDir, list)
      ensures forall p :: p in list <==> p in files && p.dir == backupDir && BackupName(p.name)
      ensures forall i, j :: 0 <= i < j < |list| ==> files[list[i]].mtime >= files[list[j]].mtime
    {
      list := [];
      var entries := files.Keys;
      ghost var seen := {};
      while entries != {}
        invariant entries !! seen && entries + seen == files.Keys
        invariant multiset(list) == multiset(Select(seen, backupDir))
        invariant (forall p :: p in list ==> p in files) && NewestFirst(files, list)
        decreases entries
      {
        var p :| p in entries;
        SelectOneMore(seen, backupDir, p);
        entries := entries - {p};
        seen := seen + {p};
        if IsBackup(backupDir, p) {
          InsertSorted(files, p, list);
          list := Insert(files, p, list);
        }
      }
      assert seen == files.Keys;
      BackupsAreNamedIn(files, backupDir);
      assert forall p :: p in list <==> p in multiset(list);
    }

    method RestoreFromBackup(backupIndex: nat) returns (r: Result)
      modifies pool.data
      ensures RestoresIth(files, backupDir, backupIndex, pool.counts, old(pool.data[..]), r, pool.data[..])
    {
      var list := GetBackupList();
      if backupIndex >= |list| {
        r := NOT_FOUND;
      } else {
        assert list[backupIndex] in list;
        r := ReadSnapshotFile(list[backupIndex]);
      }
      assert RestoresFrom(files, list, backupIndex, pool.counts, old(pool.data[..]), r, pool.data[..]);
    }

    /**
     * All or nothing: the pool's data change only on OK, and then to the accepted content of the
     * snapshot or, if that file is rejected, of the newest backup. A missing snapshot file is an error
     * whatever backups there are.
     */
    method Restore(filename: Option<Path>) returns (r: Result)
      modifies pool.data
      ensures r != OK ==> pool.data[..] == old(pool.data[..])
      ensures !attached ==> r == NOT_INITIALIZED
      ensures attached ==>
                var path := if filename.Some? then filename.value else snapshotPath;
                if path !in files then r == NOT_FOUND
                else match Loaded(pool.counts, pool.data.Length, files[path])
                     case Some(data) => r == OK && pool.data[..] == data
                     case None => RestoresIth(files, backupDir, 0, pool.counts, old(pool.data[..]), r, pool.data[..])
    {
      if !attached {
        return NOT_INITIALIZED;
      }
      var path := if filename.Some? then filename.value else snapshotPath;
      if path !in files {
        return NOT_FOUND;
      }
      r := ReadSnapshotFile(path);
      if r != OK {
        r := RestoreFromBackup(0);
      }
    }

    /** Removes every backup after the first keepCount of the list, and no other file. */
    method CleanupOldBackups(keepCount: nat)
      modifies this`files
      ensures CleanedUp(old(files), backupDir, keepCount, files)
      ensures forall p :: p in old(files) && p !in files ==> p.dir == backupDir && BackupName(p.name)
      ensures forall p :: p in files ==> p in old(files) && files[p] == old(files)[p]
      ensures forall p, q :: p in old(files) && p !in files && q in files && q.dir == backupDir && BackupName(q.name) ==>
                files[q].mtime >= old(files)[p].mtime
    {
      var list := GetBackupList();
      var i := keepCount;
      ghost var k := Min(keepCount, |list|);
      while i < |list|
        invariant keepCount <= i && (keepCount <= |list| ==> i <= |list|)
        invariant files == old(files) - (set p | p in list[k..Max(k, Min(i, |list|))])
      {
        assert list[k..i + 1] == list[k..i] + [list[i]];
        files := files - {list[i]};
        i := i + 1;
      }
      assert list[k..Max(k, Min(i, |list|))] == list[k..];
      RemovedAreOlder(old(files), list, k);
    }
  }

  // ---------- Several calls ----------

  /** Anything at all is written over the data region, byte by byte. */
  method Overwrite(pool: DataPool, writes: seq<(nat, byte)>)
    requires forall w :: w in writes ==> w.0 < pool.data.Length
    modifies pool.data
  {
    for i := 0 to |writes| {
      pool.data[writes[i].0] := writes[i].1;
    }
  }

  /** Saving, then arbitrary writes, then restoring the same file gives back the saved bytes. */
  method SaveWriteRestore(storage: PersistentStorage, filename: Option<Path>, writes: seq<(nat, byte)>,
                          now: nat, mtime: nat, canOpen: bool)
    returns (saved: Result, restored: Result)
    requires forall w :: w in writes ==> w.0 < storage.pool.data.Length
    modifies storage`files, storage.pool.data
    ensures saved == OK ==> restored == OK && storage.pool.data[..] == old(storage.pool.data[..])
  {
    saved := storage.SaveSnapshot(filename, now, mtime, canOpen);
    ghost var pool := storage.pool;
    SaveThenLoad(pool.counts, pool.indexCount, pool.shmSize, pool.data[..], now, mtime);
    Overwrite(storage.pool, writes);
    restored := storage.Restore(filename);
  }

  /** With distinct modification times, a backup that clean-up keeps restores the same before and after it. */
  method RestoreCleanupRestore(storage: PersistentStorage, keepCount: nat, i: nat, writes: seq<(nat, byte)>)
    returns (before: Result, after: Result, first: seq<byte>)
    requires DistinctTimes(storage.files, storage.backupDir) && i < keepCount
    requires forall w :: w in writes ==> w.0 < storage.pool.data.Length
    modifies storage`files, storage.pool.data
    ensures before == after
    ensures before == OK ==> storage.pool.data[..] == first
  {
    ghost var start := storage.pool.data[..];
    before := storage.RestoreFromBackup(i);
    first := storage.pool.data[..];
    Overwrite(storage.pool, writes);
    ghost var was, scribbled := storage.files, storage.pool.data[..];
    storage.CleanupOldBackups(keepCount);
    after := storage.RestoreFromBackup(i);
    RestoreSurvivesCleanup(was, storage.files, storage.backupDir, keepCount, i, storage.pool.counts,
                           start, before, first, scribbled, after, storage.pool.data[..]);
  }
}
