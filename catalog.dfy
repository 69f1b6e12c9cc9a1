/**
 * The five tables behind `DatabaseManager` (src/database/index.js) as in-memory values.
 *
 * Each table is a sequence of rows in rowid order. AUTOINCREMENT is a per-table counter
 * (`next*Id`) that only grows, so an id is never handed out twice. The connection's
 * `lastInsertRowid` is kept because better-sqlite3 reports it from every `run`.
 * `fk` is SQLite's `PRAGMA foreign_keys`: when it is off (the production setting) no
 * FOREIGN KEY clause is enforced and no ON DELETE CASCADE fires.
 */
module Catalog {
  import opened Wrappers
  import opened Seqs
  import opened Strings
  import Paths

  // ------------------------------------------------------------------ rows

  /** `files(id AUTOINCREMENT, path UNIQUE, name, size, mtime, created_at, updated_at, directory_id)` */
  datatype FileRow = FileRow(id: int, path: string, name: string, size: int, mtime: int,
                             createdAt: int, updatedAt: int, directoryId: Option<int>)

  /** `directories(id AUTOINCREMENT, path UNIQUE, name, is_watching, files_count, total_size, last_scan, created_at)` */
  datatype DirectoryRow = DirectoryRow(id: int, path: string, name: string, isWatching: bool,
                                       filesCount: int, totalSize: int, lastScan: int, createdAt: int)

  /** `tags(id AUTOINCREMENT, name UNIQUE, color, created_at)` */
  datatype TagRow = TagRow(id: int, name: string, color: string, createdAt: int)

  /** `file_tags(id AUTOINCREMENT, file_id, tag_id, created_at, UNIQUE(file_id, tag_id))` */
  datatype LinkRow = LinkRow(id: int, fileId: int, tagId: int, createdAt: int)

  /** `settings(id AUTOINCREMENT, key UNIQUE, value)` */
  datatype SettingRow = SettingRow(id: int, key: string, value: string)

  datatype Db = Db(files: seq<FileRow>, directories: seq<DirectoryRow>, tags: seq<TagRow>,
                   links: seq<LinkRow>, settings: seq<SettingRow>,
                   nextFileId: int, nextDirectoryId: int, nextTagId: int, nextLinkId: int,
                   nextSettingId: int, lastInsertRowid: int)

  /** The object a caller hands to `addFile`; a missing property is `None`. */
  datatype FileInfo = FileInfo(path: string, name: string, size: Option<int>, mtime: Option<int>,
                               directoryId: Option<int>)

  /** better-sqlite3's `RunResult` of a write statement. */
  datatype RunResult = RunResult(changes: nat, lastInsertRowid: int)

  /** The tables right after `createTables` on a new database file, before the default settings. */
  function EmptyDb(): (d: Db)
    ensures d.files == [] && d.directories == [] && d.tags == [] && d.links == [] && d.settings == []
  {
    Db([], [], [], [], [], 1, 1, 1, 1, 1, 0)
  }

  // ------------------------------------------------------------------ lookups

  function FindFile(files: seq<FileRow>, id: int): (r: Option<FileRow>)
    ensures r.Some? ==> r.value in files && r.value.id == id
    ensures r.None? <==> forall f :: f in files ==> f.id != id
  {
    Find(files, (f: FileRow) => f.id == id)
  }

  /** `getFileByPath`: `SELECT * FROM files WHERE path = ?`. */
  function FindFileByPath(files: seq<FileRow>, path: string): (r: Option<FileRow>)
    ensures r.Some? ==> r.value in files && r.value.path == path
    ensures r.None? <==> forall f :: f in files ==> f.path != path
  {
    Find(files, (f: FileRow) => f.path == path)
  }

  /** `getDirectoryById`: `SELECT * FROM directories WHERE id = ?`. */
  function FindDirectory(dirs: seq<DirectoryRow>, id: int): (r: Option<DirectoryRow>)
    ensures r.Some? ==> r.value in dirs && r.value.id == id
    ensures r.None? <==> forall x :: x in dirs ==> x.id != id
  {
    Find(dirs, (x: DirectoryRow) => x.id == id)
  }

  function FindDirectoryByPath(dirs: seq<DirectoryRow>, path: string): (r: Option<DirectoryRow>)
    ensures r.Some? ==> r.value in dirs && r.value.path == path
    ensures r.None? <==> forall x :: x in dirs ==> x.path != path
  {
    Find(dirs, (x: DirectoryRow) => x.path == path)
  }

  function FindTag(tags: seq<TagRow>, id: int): (r: Option<TagRow>)
    ensures r.Some? ==> r.value in tags && r.value.id == id
    ensures r.None? <==> forall t :: t in tags ==> t.id != id
  {
    Find(tags, (t: TagRow) => t.id == id)
  }

  function FindTagByName(tags: seq<TagRow>, name: string): (r: Option<TagRow>)
    ensures r.Some? ==> r.value in tags && r.value.name == name
    ensures r.None? <==> forall t :: t in tags ==> t.name != name
  {
    Find(tags, (t: TagRow) => t.name == name)
  }

  function FindLink(links: seq<LinkRow>, fileId: int, tagId: int): (r: Option<LinkRow>)
    ensures r.Some? ==> r.value in links && r.value.fileId == fileId && r.value.tagId == tagId
    ensures r.None? <==> forall l :: l in links ==> !(l.fileId == fileId && l.tagId == tagId)
  {
    Find(links, (l: LinkRow) => l.fileId == fileId && l.tagId == tagId)
  }

  function FindSetting(settings: seq<SettingRow>, key: string): (r: Option<SettingRow>)
    ensures r.Some? ==> r.value in settings && r.value.key == key
    ensures r.None? <==> forall s :: s in settings ==> s.key != key
  {
    Find(settings, (s: SettingRow) => s.key == key)
  }

  // ------------------------------------------------------------------ well-formedness

  /** `path` is UNIQUE and `id` is an AUTOINCREMENT key below the counter. */
  ghost predicate FilesWf(files: seq<FileRow>, next: int) {
    && 1 <= next
    && NoDuplicates(files)
    && (forall f :: f in files ==> 1 <= f.id < next)
    && (forall f, g :: f in files && g in files && f.id == g.id ==> f == g)
    && (forall f, g :: f in files && g in files && f.path == g.path ==> f == g)
  }

  ghost predicate DirectoriesWf(dirs: seq<DirectoryRow>, next: int) {
    && 1 <= next
    && NoDuplicates(dirs)
    && (forall x :: x in dirs ==> 1 <= x.id < next)
    && (forall x, y :: x in dirs && y in dirs && x.id == y.id ==> x == y)
    && (forall x, y :: x in dirs && y in dirs && x.path == y.path ==> x == y)
  }

  ghost predicate TagsWf(tags: seq<TagRow>, next: int) {
    && 1 <= next
    && NoDuplicates(tags)
    && (forall t :: t in tags ==> 1 <= t.id < next)
    && (forall t, u :: t in tags && u in tags && t.id == u.id ==> t == u)
    && (forall t, u :: t in tags && u in tags && t.name == u.name ==> t == u)
  }

  /** `UNIQUE(file_id, tag_id)`. */
  ghost predicate LinksWf(links: seq<LinkRow>, next: int) {
    && 1 <= next
    && NoDuplicates(links)
    && (forall l :: l in links ==> 1 <= l.id < next)
    && (forall l, m :: l in links && m in links && l.id == m.id ==> l == m)
    && (forall l, m :: l in links && m in links && l.fileId == m.fileId && l.tagId == m.tagId ==> l == m)
  }

  ghost predicate SettingsWf(settings: seq<SettingRow>, next: int) {
    && 1 <= next
    && NoDuplicates(settings)
    && (forall s :: s in settings ==> 1 <= s.id < next)
    && (forall s, t :: s in settings && t in settings && s.id == t.id ==> s == t)
    && (forall s, t :: s in settings && t in settings && s.key == t.key ==> s == t)
  }

  /** What the FOREIGN KEY clauses guarantee while they are enforced. */
  ghost predicate Integrity(d: Db) {
    && (forall f :: f in d.files && f.directoryId.Some? ==> FindDirectory(d.directories, f.directoryId.value).Some?)
    && (forall l :: l in d.links ==> FindFile(d.files, l.fileId).Some? && FindTag(d.tags, l.tagId).Some?)
  }

  /** The constraints of `createTables`; referential integrity only when foreign keys are on. */
  ghost predicate Wf(d: Db, fk: bool) {
    && FilesWf(d.files, d.nextFileId)
    && DirectoriesWf(d.directories, d.nextDirectoryId)
    && TagsWf(d.tags, d.nextTagId)
    && LinksWf(d.links, d.nextLinkId)
    && SettingsWf(d.settings, d.nextSettingId)
    && (fk ==> Integrity(d))
  }

  // ------------------------------------------------------------------ row filters

  function WithoutPath(files: seq<FileRow>, path: string): (r: seq<FileRow>)
    ensures forall f :: f in r <==> f in files && f.path != path
    ensures NoDuplicates(files) ==> NoDuplicates(r)
  {
    Filter(files, (f: FileRow) => f.path != path)
  }

  function WithoutFile(files: seq<FileRow>, id: int): (r: seq<FileRow>)
    ensures forall f :: f in r <==> f in files && f.id != id
    ensures NoDuplicates(files) ==> NoDuplicates(r)
    ensures NoDuplicates(files) ==> |r| + |set f | f in files && f.id == id| == |files|
  {
    var keep := (f: FileRow) => f.id != id;
    assert NoDuplicates(files) ==> |Filter(files, keep)| + |set f | f in files && f.id == id| == |files| by {
      if NoDuplicates(files) {
        FilterLength(files, keep);
        assert Dropped(files, keep) == set f | f in files && f.id == id;
      }
    }
    Filter(files, keep)
  }

  function WithoutTag(tags: seq<TagRow>, id: int): (r: seq<TagRow>)
    ensures forall t :: t in r <==> t in tags && t.id != id
    ensures NoDuplicates(tags) ==> NoDuplicates(r)
    ensures NoDuplicates(tags) ==> |r| + |set t | t in tags && t.id == id| == |tags|
  {
    var keep := (t: TagRow) => t.id != id;
    assert NoDuplicates(tags) ==> |Filter(tags, keep)| + |set t | t in tags && t.id == id| == |tags| by {
      if NoDuplicates(tags) {
        FilterLength(tags, keep);
        assert Dropped(tags, keep) == set t | t in tags && t.id == id;
      }
    }
    Filter(tags, keep)
  }

  /** The links whose `file_id` is not in `ids` (what ON DELETE CASCADE leaves). */
  function LinksWithoutFiles(links: seq<LinkRow>, ids: set<int>): (r: seq<LinkRow>)
    ensures forall l :: l in r <==> l in links && l.fileId !in ids
    ensures NoDuplicates(links) ==> NoDuplicates(r)
  {
    Filter(links, (l: LinkRow) => l.fileId !in ids)
  }

  function LinksWithoutTag(links: seq<LinkRow>, tagId: int): (r: seq<LinkRow>)
    ensures forall l :: l in r <==> l in links && l.tagId != tagId
    ensures NoDuplicates(links) ==> NoDuplicates(r)
  {
    Filter(links, (l: LinkRow) => l.tagId != tagId)
  }

  function LinksWithoutPair(links: seq<LinkRow>, fileId: int, tagId: int): (r: seq<LinkRow>)
    ensures forall l :: l in r <==> l in links && !(l.fileId == fileId && l.tagId == tagId)
    ensures NoDuplicates(links) ==> NoDuplicates(r)
    ensures NoDuplicates(links) ==>
      |r| + |set l | l in links && l.fileId == fileId && l.tagId == tagId| == |links|
  {
    var keep := (l: LinkRow) => !(l.fileId == fileId && l.tagId == tagId);
    assert NoDuplicates(links) ==>
      |Filter(links, keep)| + |set l | l in links && l.fileId == fileId && l.tagId == tagId| == |links| by {
      if NoDuplicates(links) {
        FilterLength(links, keep);
        assert Dropped(links, keep) == set l | l in links && l.fileId == fileId && l.tagId == tagId;
      }
    }
    Filter(links, keep)
  }

  /** The ids of the rows whose path is `path` (the row an INSERT OR REPLACE deletes). */
  function FileIdsWithPath(files: seq<FileRow>, path: string): (ids: set<int>)
    ensures forall id :: id in ids <==> exists f :: f in files && f.path == path && f.id == id
  {
    set f | f in files && f.path == path :: f.id
  }

  // ------------------------------------------------------------------ directory row updates

  /** The two tables agree on every row's id and path, position by position. */
  ghost predicate SameKeys(a: seq<DirectoryRow>, b: seq<DirectoryRow>) {
    |a| == |b| && forall i :: 0 <= i < |a| ==> a[i].id == b[i].id && a[i].path == b[i].path
  }

  function WithStats(dirs: seq<DirectoryRow>, id: int, count: int, size: int): (r: seq<DirectoryRow>)
    ensures SameKeys(dirs, r)
  {
    seq(|dirs|, i requires 0 <= i < |dirs| =>
      if dirs[i].id == id then dirs[i].(filesCount := count, totalSize := size) else dirs[i])
  }

  function WithLastScan(dirs: seq<DirectoryRow>, id: int, time: int): (r: seq<DirectoryRow>)
    ensures SameKeys(dirs, r)
  {
    seq(|dirs|, i requires 0 <= i < |dirs| =>
      if dirs[i].id == id then dirs[i].(lastScan := time) else dirs[i])
  }

  function WithWatchingToggled(dirs: seq<DirectoryRow>, id: int): (r: seq<DirectoryRow>)
    ensures SameKeys(dirs, r)
  {
    seq(|dirs|, i requires 0 <= i < |dirs| =>
      if dirs[i].id == id then dirs[i].(isWatching := !dirs[i].isWatching) else dirs[i])
  }

  function WithStatsCleared(dirs: seq<DirectoryRow>): (r: seq<DirectoryRow>)
    ensures SameKeys(dirs, r)
  {
    seq(|dirs|, i requires 0 <= i < |dirs| => dirs[i].(filesCount := 0, totalSize := 0))
  }

  // ------------------------------------------------------------------ aggregates

  /** `SELECT COUNT(*) FROM files WHERE directory_id = ?` */
  function CountIn(files: seq<FileRow>, dirId: int): (n: nat)
    ensures n <= |files|
    ensures (forall f :: f in files ==> f.directoryId != Some(dirId)) ==> n == 0
  {
    if files == [] then 0
    else (if files[0].directoryId == Some(dirId) then 1 else 0) + CountIn(files[1..], dirId)
  }

  /** `SELECT SUM(size) FROM files WHERE directory_id = ?`, with `|| 0` turning the empty sum's NULL into 0. */
  function SizeIn(files: seq<FileRow>, dirId: int): (total: int)
    ensures (forall f :: f in files ==> f.directoryId != Some(dirId)) ==> total == 0
  {
    if files == [] then 0
    else (if files[0].directoryId == Some(dirId) then files[0].size else 0) + SizeIn(files[1..], dirId)
  }

  /** The set of rows that belong to a directory, as an independent reading of the count. */
  ghost function FilesOf(files: seq<FileRow>, dirId: int): set<FileRow> {
    set f | f in files && f.directoryId == Some(dirId)
  }

  // ------------------------------------------------------------------ statements

  /** `directory_id || null`: an absent or zero id is stored as NULL. */
  function StoredDirectory(directoryId: Option<int>): Option<int> {
    if directoryId.Some? && directoryId.value != 0 then directoryId else None
  }

  /** With foreign keys on, an INSERT naming a missing directory fails; `addFile` catches it and returns null. */
  predicate AddFileRejected(d: Db, info: FileInfo, fk: bool) {
    var dir := StoredDirectory(info.directoryId);
    fk && dir.Some? && FindDirectory(d.directories, dir.value).None?
  }

  /** The row INSERT OR REPLACE writes: a fresh id, defaults for absent size and mtime. */
  function NewFileRow(d: Db, info: FileInfo, now: int): FileRow {
    FileRow(d.nextFileId, info.path, info.name, info.size.GetOr(0), info.mtime.GetOr(0),
            now, now, StoredDirectory(info.directoryId))
  }

  /**
   * `INSERT OR REPLACE INTO files ...`: the row holding the path (if any) is deleted,
   * together with its links when foreign keys cascade, and a new row is appended.
   */
  function ReplaceFile(d: Db, info: FileInfo, now: int, fk: bool): Db {
    var row := NewFileRow(d, info, now);
    d.(files := WithoutPath(d.files, info.path) + [row],
       links := if fk then LinksWithoutFiles(d.links, FileIdsWithPath(d.files, info.path)) else d.links,
       nextFileId := d.nextFileId + 1,
       lastInsertRowid := row.id)
  }

  /** `updateDirectoryStats(directoryId)`. */
  function UpdateDirectoryStats(d: Db, dirId: int): Db {
    d.(directories := WithStats(d.directories, dirId, CountIn(d.files, dirId), SizeIn(d.files, dirId)))
  }

  /** `addFile(file)`: the REPLACE, then the stats of the file's directory when one was given. */
  function AddFile(d: Db, info: FileInfo, now: int, fk: bool): Db {
    if AddFileRejected(d, info, fk) then d
    else
      var d1 := ReplaceFile(d, info, now, fk);
      var dir := StoredDirectory(info.directoryId);
      if dir.Some? then UpdateDirectoryStats(d1, dir.value) else d1
  }

  /** `deleteFile(fileId)`: `DELETE FROM files WHERE id = ?`, cascading to links when enforced. */
  function DeleteFile(d: Db, fileId: int, fk: bool): Db {
    d.(files := WithoutFile(d.files, fileId),
       links := if fk then LinksWithoutFiles(d.links, {fileId}) else d.links)
  }

  /** `addTag(name, color)`: `INSERT OR IGNORE INTO tags`. */
  function AddTag(d: Db, name: string, color: string, now: int): Db {
    if FindTagByName(d.tags, name).Some? then d
    else d.(tags := d.tags + [TagRow(d.nextTagId, name, color, now)],
            nextTagId := d.nextTagId + 1, lastInsertRowid := d.nextTagId)
  }

  /** `deleteTag(tagId)`: `DELETE FROM tags WHERE id = ?`, cascading to links when enforced. */
  function DeleteTag(d: Db, tagId: int, fk: bool): Db {
    d.(tags := WithoutTag(d.tags, tagId),
       links := if fk then LinksWithoutTag(d.links, tagId) else d.links)
  }

  /** With foreign keys on, a new link to a missing file or tag violates the FOREIGN KEY and throws. */
  predicate TagFileRejected(d: Db, fileId: int, tagId: int, fk: bool) {
    && FindLink(d.links, fileId, tagId).None?
    && fk && (FindFile(d.files, fileId).None? || FindTag(d.tags, tagId).None?)
  }

  /** `tagFile(fileId, tagId)`: `INSERT OR IGNORE INTO file_tags`. */
  function TagFile(d: Db, fileId: int, tagId: int, now: int, fk: bool): Db {
    if FindLink(d.links, fileId, tagId).Some? || TagFileRejected(d, fileId, tagId, fk) then d
    else d.(links := d.links + [LinkRow(d.nextLinkId, fileId, tagId, now)],
            nextLinkId := d.nextLinkId + 1, lastInsertRowid := d.nextLinkId)
  }

  /** `untagFile(fileId, tagId)`: `DELETE FROM file_tags WHERE file_id = ? AND tag_id = ?`. */
  function UntagFile(d: Db, fileId: int, tagId: int): Db {
    d.(links := LinksWithoutPair(d.links, fileId, tagId))
  }

  /** `updateDirectoryScanTime(directoryId)` at clock reading `now`. */
  function UpdateDirectoryScanTime(d: Db, dirId: int, now: int): Db {
    d.(directories := WithLastScan(d.directories, dirId, now))
  }

  /** `clearData()`: one transaction deleting links, tags and files and zeroing every directory's stats. */
  function ClearData(d: Db): Db {
    d.(links := [], tags := [], files := [], directories := WithStatsCleared(d.directories))
  }

  /** `addDirectory(path, isWatching)`: `INSERT OR IGNORE INTO directories`. */
  function AddDirectory(d: Db, path: string, isWatching: bool, now: int): Db {
    if FindDirectoryByPath(d.directories, path).Some? then d
    else d.(directories := d.directories
                           + [DirectoryRow(d.nextDirectoryId, path, Paths.DirectoryName(path), isWatching, 0, 0, 0, now)],
            nextDirectoryId := d.nextDirectoryId + 1, lastInsertRowid := d.nextDirectoryId)
  }

  /** `toggleDirectoryMonitoring(directoryId)`; a missing row changes nothing. */
  function ToggleDirectoryMonitoring(d: Db, dirId: int): Db {
    if FindDirectory(d.directories, dirId).None? then d
    else d.(directories := WithWatchingToggled(d.directories, dirId))
  }

  /** One `INSERT OR IGNORE INTO settings (key, value)`. */
  function InsertSetting(d: Db, key: string, value: string): Db {
    if FindSetting(d.settings, key).Some? then d
    else d.(settings := d.settings + [SettingRow(d.nextSettingId, key, value)],
            nextSettingId := d.nextSettingId + 1, lastInsertRowid := d.nextSettingId)
  }

  /** The settings `addDefaultSettings` inserts, in `Object.entries` order. */
  const DefaultSettings: seq<(string, string)> := [
    ("auto_start_monitoring", "true"),
    ("auto_scan_new_files", "true"),
    ("monitoring_interval", "60"),
    ("index_content", "false"),
    ("content_index_depth", "light"),
    ("ignore_patterns", "*.tmp\n.DS_Store\nThumbs.db\n*.bak\nnode_modules/\n.git/\n__pycache__/")
  ]

  /** The inserts of `pairs`, one after the other. */
  function InsertSettings(d: Db, pairs: seq<(string, string)>): Db
    decreases |pairs|
  {
    if pairs == [] then d
    else InsertSettings(InsertSetting(d, pairs[0].0, pairs[0].1), pairs[1..])
  }

  // ------------------------------------------------------------------ queries

  function ByFileName(): (FileRow, FileRow) -> bool {
    (a: FileRow, b: FileRow) => LexLe(a.name, b.name)
  }

  function ByTagName(): (TagRow, TagRow) -> bool {
    (a: TagRow, b: TagRow) => LexLe(a.name, b.name)
  }

  function NewestFirst(): (DirectoryRow, DirectoryRow) -> bool {
    (a: DirectoryRow, b: DirectoryRow) => a.createdAt >= b.createdAt
  }

  lemma ByFileNameIsPreorder()
    ensures Total(ByFileName()) && Transitive(ByFileName())
  {
    forall a: FileRow, b: FileRow ensures ByFileName()(a, b) || ByFileName()(b, a) {
      LexTotal(a.name, b.name);
    }
    forall a: FileRow, b: FileRow, c: FileRow | ByFileName()(a, b) && ByFileName()(b, c)
      ensures ByFileName()(a, c)
    {
      LexTransitive(a.name, b.name, c.name);
    }
  }

  lemma ByTagNameIsPreorder()
    ensures Total(ByTagName()) && Transitive(ByTagName())
  {
    forall a: TagRow, b: TagRow ensures ByTagName()(a, b) || ByTagName()(b, a) {
      LexTotal(a.name, b.name);
    }
    forall a: TagRow, b: TagRow, c: TagRow | ByTagName()(a, b) && ByTagName()(b, c)
      ensures ByTagName()(a, c)
    {
      LexTransitive(a.name, b.name, c.name);
    }
  }

  /** `getAllFiles()`: `SELECT * FROM files ORDER BY name`. */
  function GetAllFiles(d: Db): (r: seq<FileRow>)
    ensures multiset(r) == multiset(d.files)
    ensures forall i, j :: 0 <= i < j < |r| ==> LexLe(r[i].name, r[j].name)
  {
    ByFileNameIsPreorder();
    SortByIsSorted(d.files, ByFileName());
    SortBy(d.files, ByFileName())
  }

  /** `getAllTags()`: `SELECT * FROM tags ORDER BY name`. */
  function GetAllTags(d: Db): (r: seq<TagRow>)
    ensures multiset(r) == multiset(d.tags)
    ensures forall i, j :: 0 <= i < j < |r| ==> LexLe(r[i].name, r[j].name)
  {
    ByTagNameIsPreorder();
    SortByIsSorted(d.tags, ByTagName());
    SortBy(d.tags, ByTagName())
  }

  /** `getAllDirectories()`: `SELECT * FROM directories ORDER BY created_at DESC`. */
  function GetAllDirectories(d: Db): (r: seq<DirectoryRow>)
    ensures multiset(r) == multiset(d.directories)
    ensures forall i, j :: 0 <= i < j < |r| ==> r[i].createdAt >= r[j].createdAt
  {
    SortByIsSorted(d.directories, NewestFirst());
    SortBy(d.directories, NewestFirst())
  }

  /** The files some link ties to `tagId`, in table order (the JOIN before ORDER BY). */
  function FilesTagged(d: Db, tagId: int): (r: seq<FileRow>)
    ensures forall f :: f in r <==> f in d.files && FindLink(d.links, f.id, tagId).Some?
    ensures NoDuplicates(d.files) ==> NoDuplicates(r)
  {
    Filter(d.files, (f: FileRow) => FindLink(d.links, f.id, tagId).Some?)
  }

  /** The tags some link ties to `fileId`, in table order. */
  function TagsOfFile(d: Db, fileId: int): (r: seq<TagRow>)
    ensures forall t :: t in r <==> t in d.tags && FindLink(d.links, fileId, t.id).Some?
    ensures NoDuplicates(d.tags) ==> NoDuplicates(r)
  {
    Filter(d.tags, (t: TagRow) => FindLink(d.links, fileId, t.id).Some?)
  }

  /** `getFilesByTag(tagId)`: files joined with file_tags on `tag_id = ?`, ORDER BY name. */
  function GetFilesByTag(d: Db, tagId: int): (r: seq<FileRow>)
    ensures forall f :: f in r <==> f in d.files && exists l :: l in d.links && l.fileId == f.id && l.tagId == tagId
    ensures NoDuplicates(d.files) ==> NoDuplicates(r)
    ensures forall i, j :: 0 <= i < j < |r| ==> LexLe(r[i].name, r[j].name)
  {
    var joined := FilesTagged(d, tagId);
    ByFileNameIsPreorder();
    SortByIsSorted(joined, ByFileName());
    var r := SortBy(joined, ByFileName());
    assert forall f :: f in r <==> f in joined by {
      forall f ensures f in r <==> f in joined {
        assert f in r <==> f in multiset(r);
        assert f in joined <==> f in multiset(joined);
      }
    }
    assert NoDuplicates(d.files) ==> NoDuplicates(r) by {
      if NoDuplicates(d.files) { PermutationNoDuplicates(joined, r); }
    }
    r
  }

  /** `getFileTags(fileId)`: tags joined with file_tags on `file_id = ?`, ORDER BY name. */
  function GetFileTags(d: Db, fileId: int): (r: seq<TagRow>)
    ensures forall t :: t in r <==> t in d.tags && exists l :: l in d.links && l.fileId == fileId && l.tagId == t.id
    ensures NoDuplicates(d.tags) ==> NoDuplicates(r)
    ensures forall i, j :: 0 <= i < j < |r| ==> LexLe(r[i].name, r[j].name)
  {
    var joined := TagsOfFile(d, fileId);
    ByTagNameIsPreorder();
    SortByIsSorted(joined, ByTagName());
    var r := SortBy(joined, ByTagName());
    assert forall t :: t in r <==> t in joined by {
      forall t ensures t in r <==> t in joined {
        assert t in r <==> t in multiset(r);
        assert t in joined <==> t in multiset(joined);
      }
    }
    assert NoDuplicates(d.tags) ==> NoDuplicates(r) by {
      if NoDuplicates(d.tags) { PermutationNoDuplicates(joined, r); }
    }
    r
  }
}
