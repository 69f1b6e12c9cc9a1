/**
 * `DatabaseManager` (src/database/index.js) over an in-memory copy of its tables.
 *
 * Each method performs the statements of its JavaScript namesake on the fields and is
 * proved to leave the tables in the state the matching `Catalog` transition describes;
 * the lemmas of `CatalogFacts` then say what that state means.
 */
module Database {
  import opened Wrappers
  import opened Seqs
  import opened Catalog
  import opened CatalogFacts

  /** The colour `addTag` uses when the caller gives none. */
  const DefaultTagColor: string := "#007AFF"

  class DatabaseManager {
    var files: seq<FileRow>
    var directories: seq<DirectoryRow>
    var tags: seq<TagRow>
    var fileTags: seq<LinkRow>
    var settings: seq<SettingRow>
    var nextFileId: int
    var nextDirectoryId: int
    var nextTagId: int
    var nextLinkId: int
    var nextSettingId: int
    var lastInsertRowid: int
    /** SQLite's `PRAGMA foreign_keys` for this connection. */
    const foreignKeys: bool

    function State(): Db
      reads this
    {
      Db(files, directories, tags, fileTags, settings,
         nextFileId, nextDirectoryId, nextTagId, nextLinkId, nextSettingId, lastInsertRowid)
    }

    ghost predicate Valid()
      reads this
    {
      Wf(State(), foreignKeys)
    }

    /** `init()` on a new database file: `createTables`, which ends with `addDefaultSettings`. */
    constructor (foreignKeys: bool)
      ensures Valid() && this.foreignKeys == foreignKeys
      ensures State() == InsertSettings(EmptyDb(), DefaultSettings)
    {
      this.foreignKeys := foreignKeys;
      files, directories, tags, fileTags, settings := [], [], [], [], [];
      nextFileId, nextDirectoryId, nextTagId, nextLinkId, nextSettingId := 1, 1, 1, 1, 1;
      lastInsertRowid := 0;
      new;
      AddDefaultSettings();
    }

    /** `addDefaultSettings()`: one `INSERT OR IGNORE INTO settings` per default, in order. */
    method AddDefaultSettings()
      requires Valid()
      modifies this
      ensures Valid()
      ensures State() == InsertSettings(old(State()), DefaultSettings)
    {
      ghost var d0 := State();
      var defaults := DefaultSettings;
      for i := 0 to |defaults|
        invariant Valid()
        invariant State() == InsertSettings(d0, defaults[..i])
      {
        var (key, value) := defaults[i];
        InsertSettingsSnoc(d0, defaults[..i], key, value);
        assert defaults[..i + 1] == defaults[..i] + [(key, value)];
        InsertIgnoreSetting(key, value);
      }
      assert defaults[..|defaults|] == defaults;
    }

    /** One `INSERT OR IGNORE INTO settings (key, value)` of the loop above. */
    method InsertIgnoreSetting(key: string, value: string)
      requires Valid()
      modifies this
      ensures Valid()
      ensures State() == InsertSetting(old(State()), key, value)
    {
      ghost var d := State();
      if FindSetting(settings, key).None? {
        settings := settings + [SettingRow(nextSettingId, key, value)];
        lastInsertRowid := nextSettingId;
        nextSettingId := nextSettingId + 1;
      }
      assert State() == InsertSetting(d, key, value);
      InsertSettingEffect(d, key, value, foreignKeys);
    }

    /**
     * `addFile(file)`: INSERT OR REPLACE the row, then refresh the directory's stats when
     * the file names one. `None` is the `null` returned when the insert throws.
     */
    method AddFile(info: FileInfo, now: int) returns (result: Option<RunResult>)
      requires Valid()
      modifies this
      ensures Valid()
      ensures State() == Catalog.AddFile(old(State()), info, now, foreignKeys)
      ensures result == if AddFileRejected(old(State()), info, foreignKeys) then None
                        else Some(RunResult(1, old(nextFileId)))
    {
      if AddFileRejected(State(), info, foreignKeys) {
        return None;
      }
      ghost var d := State();
      var row := NewFileRow(State(), info, now);
      if foreignKeys {
        fileTags := LinksWithoutFiles(fileTags, FileIdsWithPath(files, info.path));
      }
      files := WithoutPath(files, info.path) + [row];
      nextFileId := nextFileId + 1;
      lastInsertRowid := row.id;
      assert State() == ReplaceFile(d, info, now, foreignKeys);
      ReplaceFileWf(d, info, now, foreignKeys);
      result := Some(RunResult(1, row.id));
      var dir := StoredDirectory(info.directoryId);
      if dir.Some? {
        UpdateDirectoryStats(dir.value);
      }
    }

    /** `getFileByPath(path)`. */
    function GetFileByPath(path: string): (r: Option<FileRow>)
      reads this
      ensures r.Some? ==> r.value in files && r.value.path == path
      ensures r.None? <==> forall f :: f in files ==> f.path != path
    {
      FindFileByPath(files, path)
    }

    /** `updateDirectoryStats(directoryId)`: count and sum the directory's files, then store both. */
    method UpdateDirectoryStats(dirId: int)
      requires Valid()
      modifies this
      ensures Valid()
      ensures State() == Catalog.UpdateDirectoryStats(old(State()), dirId)
    {
      UpdateDirectoryStatsEffect(State(), dirId, foreignKeys);
      var filesCount := CountIn(files, dirId);
      var totalSize := SizeIn(files, dirId);
      directories := WithStats(directories, dirId, filesCount, totalSize);
    }

    /** `getAllFiles()`. */
    function GetAllFiles(): (r: seq<FileRow>)
      reads this
      ensures multiset(r) == multiset(files)
      ensures forall i, j :: 0 <= i < j < |r| ==> Strings.LexLe(r[i].name, r[j].name)
    {
      Catalog.GetAllFiles(State())
    }

    /** `deleteFile(fileId)`; `changes` counts the file row only, not cascaded links. */
    method DeleteFile(fileId: int) returns (result: RunResult)
      requires Valid()
      modifies this
      ensures Valid()
      ensures State() == Catalog.DeleteFile(old(State()), fileId, foreignKeys)
      ensures result == RunResult(if FindFile(old(files), fileId).Some? then 1 else 0, lastInsertRowid)
    {
      ghost var d := State();
      var before := |files|;
      files := WithoutFile(files, fileId);
      if foreignKeys {
        fileTags := LinksWithoutFiles(fileTags, {fileId});
      }
      assert State() == Catalog.DeleteFile(d, fileId, foreignKeys);
      DeleteFileWf(d, fileId, foreignKeys);
      DeleteFileEffect(d, fileId, foreignKeys);
      result := RunResult(before - |files|, lastInsertRowid);
    }

    /** `addTag(name, color = '#007AFF')`; `None` is an omitted colour. */
    method AddTag(name: string, color: Option<string>, now: int) returns (result: RunResult)
      requires Valid()
      modifies this
      ensures Valid()
      ensures State() == Catalog.AddTag(old(State()), name, color.GetOr(DefaultTagColor), now)
      ensures result == RunResult(if FindTagByName(old(tags), name).Some? then 0 else 1, lastInsertRowid)
    {
      AddTagWf(State(), name, color.GetOr(DefaultTagColor), now, foreignKeys);
      if FindTagByName(tags, name).Some? {
        return RunResult(0, lastInsertRowid);
      }
      tags := tags + [TagRow(nextTagId, name, color.GetOr(DefaultTagColor), now)];
      lastInsertRowid := nextTagId;
      nextTagId := nextTagId + 1;
      result := RunResult(1, lastInsertRowid);
    }

    /** `getAllTags()`. */
    function GetAllTags(): (r: seq<TagRow>)
      reads this
      ensures multiset(r) == multiset(tags)
      ensures forall i, j :: 0 <= i < j < |r| ==> Strings.LexLe(r[i].name, r[j].name)
    {
      Catalog.GetAllTags(State())
    }

    /** `deleteTag(tagId)`. */
    method DeleteTag(tagId: int) returns (result: RunResult)
      requires Valid()
      modifies this
      ensures Valid()
      ensures State() == Catalog.DeleteTag(old(State()), tagId, foreignKeys)
      ensures result == RunResult(if FindTag(old(tags), tagId).Some? then 1 else 0, lastInsertRowid)
    {
      var hit := set t | t in tags && t.id == tagId;
      if FindTag(tags, tagId).Some? {
        assert hit == {FindTag(tags, tagId).value};
      } else {
        assert hit == {};
      }
      ghost var d := State();
      var before := |tags|;
      tags := WithoutTag(tags, tagId);
      if foreignKeys {
        fileTags := LinksWithoutTag(fileTags, tagId);
      }
      assert State() == Catalog.DeleteTag(d, tagId, foreignKeys);
      DeleteTagEffect(d, tagId, foreignKeys);
      result := RunResult(before - |tags|, lastInsertRowid);
    }

    /**
     * `tagFile(fileId, tagId)`: INSERT OR IGNORE. `None` is the FOREIGN KEY error the
     * statement throws when foreign keys are on and the file or the tag is missing.
     */
    method TagFile(fileId: int, tagId: int, now: int) returns (result: Option<RunResult>)
      requires Valid()
      modifies this
      ensures Valid()
      ensures State() == Catalog.TagFile(old(State()), fileId, tagId, now, foreignKeys)
      ensures result.None? <==> TagFileRejected(old(State()), fileId, tagId, foreignKeys)
      ensures result.Some? ==> result.value.changes == (if FindLink(old(fileTags), fileId, tagId).Some? then 0 else 1)
    {
      if FindLink(fileTags, fileId, tagId).Some? {
        return Some(RunResult(0, lastInsertRowid));
      }
      if foreignKeys && (FindFile(files, fileId).None? || FindTag(tags, tagId).None?) {
        return None;
      }
      ghost var d := State();
      fileTags := fileTags + [LinkRow(nextLinkId, fileId, tagId, now)];
      lastInsertRowid := nextLinkId;
      nextLinkId := nextLinkId + 1;
      assert State() == Catalog.TagFile(d, fileId, tagId, now, foreignKeys);
      TagFileWf(d, fileId, tagId, now, foreignKeys);
      result := Some(RunResult(1, lastInsertRowid));
    }

    /** `untagFile(fileId, tagId)`. */
    method UntagFile(fileId: int, tagId: int) returns (result: RunResult)
      requires Valid()
      modifies this
      ensures Valid()
      ensures State() == Catalog.UntagFile(old(State()), fileId, tagId)
      ensures result == RunResult(if FindLink(old(fileTags), fileId, tagId).Some? then 1 else 0, lastInsertRowid)
    {
      UntagFileEffect(State(), fileId, tagId, foreignKeys);
      var before := |fileTags|;
      fileTags := LinksWithoutPair(fileTags, fileId, tagId);
      result := RunResult(before - |fileTags|, lastInsertRowid);
    }

    /** `getFilesByTag(tagId)`. */
    function GetFilesByTag(tagId: int): (r: seq<FileRow>)
      reads this
      ensures forall f :: f in r <==> f in files && exists l :: l in fileTags && l.fileId == f.id && l.tagId == tagId
      ensures NoDuplicates(files) ==> NoDuplicates(r)
      ensures forall i, j :: 0 <= i < j < |r| ==> Strings.LexLe(r[i].name, r[j].name)
    {
      Catalog.GetFilesByTag(State(), tagId)
    }

    /** `getFileTags(fileId)`. */
    function GetFileTags(fileId: int): (r: seq<TagRow>)
      reads this
      ensures forall t :: t in r <==> t in tags && exists l :: l in fileTags && l.fileId == fileId && l.tagId == t.id
      ensures NoDuplicates(tags) ==> NoDuplicates(r)
      ensures forall i, j :: 0 <= i < j < |r| ==> Strings.LexLe(r[i].name, r[j].name)
    {
      Catalog.GetFileTags(State(), fileId)
    }

    /** `updateDirectoryScanTime(directoryId)`, `now` being `Math.floor(Date.now() / 1000)`. */
    method UpdateDirectoryScanTime(dirId: int, now: int)
      requires Valid()
      modifies this
      ensures Valid()
      ensures State() == Catalog.UpdateDirectoryScanTime(old(State()), dirId, now)
    {
      UpdateDirectoryScanTimeEffect(State(), dirId, now, foreignKeys);
      directories := WithLastScan(directories, dirId, now);
    }

    /** `clearData()`: the four statements of its transaction. */
    method ClearData() returns (ok: bool)
      requires Valid()
      modifies this
      ensures Valid()
      ensures State() == Catalog.ClearData(old(State()))
      ensures ok
    {
      ClearDataEffect(State(), foreignKeys);
      fileTags := [];
      tags := [];
      files := [];
      directories := WithStatsCleared(directories);
      ok := true;
    }

    /**
     * `addDirectory(path, isWatching = true)`: INSERT OR IGNORE, then read back the id of
     * the row holding the path (new or old).
     */
    method AddDirectory(path: string, isWatching: Option<bool>, now: int) returns (id: int)
      requires Valid()
      modifies this
      ensures Valid()
      ensures State() == Catalog.AddDirectory(old(State()), path, isWatching.GetOr(true), now)
      ensures FindDirectoryByPath(directories, path).Some? && FindDirectoryByPath(directories, path).value.id == id
      ensures FindDirectoryByPath(old(directories), path).Some? ==> id == FindDirectoryByPath(old(directories), path).value.id
    {
      ghost var d := State();
      var name := Paths.DirectoryName(path);
      if FindDirectoryByPath(directories, path).None? {
        directories := directories + [DirectoryRow(nextDirectoryId, path, name, isWatching.GetOr(true), 0, 0, 0, now)];
        lastInsertRowid := nextDirectoryId;
        nextDirectoryId := nextDirectoryId + 1;
      }
      assert State() == Catalog.AddDirectory(d, path, isWatching.GetOr(true), now);
      AddDirectoryEffect(d, path, isWatching.GetOr(true), true, now, now, foreignKeys);
      AddDirectoryWf(d, path, isWatching.GetOr(true), now, foreignKeys);
      id := FindDirectoryByPath(directories, path).value.id;
    }

    /** `getAllDirectories()`. */
    function GetAllDirectories(): (r: seq<DirectoryRow>)
      reads this
      ensures multiset(r) == multiset(directories)
      ensures forall i, j :: 0 <= i < j < |r| ==> r[i].createdAt >= r[j].createdAt
    {
      Catalog.GetAllDirectories(State())
    }

    /** `toggleDirectoryMonitoring(directoryId)`: `None` is the `null` for an unknown id. */
    method ToggleDirectoryMonitoring(dirId: int) returns (result: Option<RunResult>)
      requires Valid()
      modifies this
      ensures Valid()
      ensures State() == Catalog.ToggleDirectoryMonitoring(old(State()), dirId)
      ensures result.None? <==> FindDirectory(old(directories), dirId).None?
      ensures result.Some? ==> result.value.changes == 1
    {
      ToggleDirectoryMonitoringEffect(State(), dirId, foreignKeys);
      var current := FindDirectory(directories, dirId);
      if current.None? {
        return None;
      }
      directories := WithWatchingToggled(directories, dirId);
      result := Some(RunResult(1, lastInsertRowid));
    }

    /** `getDirectoryById(directoryId)`. */
    function GetDirectoryById(dirId: int): (r: Option<DirectoryRow>)
      reads this
      ensures r.Some? ==> r.value in directories && r.value.id == dirId
      ensures r.None? <==> forall x :: x in directories ==> x.id != dirId
    {
      FindDirectory(directories, dirId)
    }
  }
}
