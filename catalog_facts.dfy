/**
 * What the statements of `DatabaseManager` guarantee: each keeps the table constraints
 * (and, while foreign keys are enforced, referential integrity), and each has the effect
 * its SQL promises — in particular that re-adding a path REPLACEs its row.
 */
module CatalogFacts {
  import opened Wrappers
  import opened Seqs
  import opened Catalog

  // ------------------------------------------------------------------ directory rows

  /** Rewriting directory rows in place keeps their keys, hence their constraints and lookups. */
  lemma SameKeysWf(a: seq<DirectoryRow>, b: seq<DirectoryRow>, next: int)
    requires DirectoriesWf(a, next) && SameKeys(a, b)
    ensures DirectoriesWf(b, next)
    ensures forall id :: FindDirectory(b, id).Some? <==> FindDirectory(a, id).Some?
  {
    forall i, j | 0 <= i < |b| && 0 <= j < |b| && (b[i].id == b[j].id || b[i].path == b[j].path)
      ensures i == j
    {
      assert a[i] in a && a[j] in a;
      assert a[i] == a[j];
    }
    forall x | x in b ensures 1 <= x.id < next {
      var i :| 0 <= i < |b| && b[i] == x;
      assert a[i] in a;
    }
    forall x, y | x in b && y in b && (x.id == y.id || x.path == y.path) ensures x == y {
      var i :| 0 <= i < |b| && b[i] == x;
      var j :| 0 <= j < |b| && b[j] == y;
    }
    forall id ensures FindDirectory(b, id).Some? <==> FindDirectory(a, id).Some? {
      if FindDirectory(a, id).Some? {
        var i :| 0 <= i < |a| && a[i] == FindDirectory(a, id).value;
        assert b[i] in b;
      }
      if FindDirectory(b, id).Some? {
        var i :| 0 <= i < |b| && b[i] == FindDirectory(b, id).value;
        assert a[i] in a;
      }
    }
  }

  /** Directory rows are only rewritten in place, so a statement that does only that keeps `Wf`. */
  lemma DirectoriesRewrittenWf(d: Db, r: Db, fk: bool)
    requires Wf(d, fk)
    requires r == d.(directories := r.directories)
    requires SameKeys(d.directories, r.directories)
    ensures Wf(r, fk)
  {
    SameKeysWf(d.directories, r.directories, d.nextDirectoryId);
  }

  /** The count kept in `files_count` is the number of rows filed under the directory. */
  lemma {:induction false} CountInIsCardinality(files: seq<FileRow>, dirId: int)
    requires NoDuplicates(files)
    ensures CountIn(files, dirId) == |FilesOf(files, dirId)|
  {
    if files == [] {
      assert FilesOf(files, dirId) == {};
    } else {
      var t := files[1..];
      assert files == [files[0]] + t;
      assert NoDuplicates(t);
      assert files[0] !in t by {
        forall k | 0 <= k < |t| ensures t[k] != files[0] {
          assert t[k] == files[k + 1];
        }
      }
      CountInIsCardinality(t, dirId);
      if files[0].directoryId == Some(dirId) {
        assert FilesOf(files, dirId) == FilesOf(t, dirId) + {files[0]};
      } else {
        assert FilesOf(files, dirId) == FilesOf(t, dirId);
      }
    }
  }

  /**
   * `updateDirectoryStats` sets exactly the row with that id: its count becomes the number
   * of files filed under it and its size their total; every other row is untouched.
   */
  lemma UpdateDirectoryStatsEffect(d: Db, dirId: int, fk: bool)
    requires Wf(d, fk)
    ensures var r := UpdateDirectoryStats(d, dirId);
      && Wf(r, fk)
      && r.files == d.files
      && |r.directories| == |d.directories|
      && forall i :: 0 <= i < |d.directories| ==>
           r.directories[i] == if d.directories[i].id == dirId
                               then d.directories[i].(filesCount := |FilesOf(d.files, dirId)|,
                                                      totalSize := SizeIn(d.files, dirId))
                               else d.directories[i]
  {
    CountInIsCardinality(d.files, dirId);
    DirectoriesRewrittenWf(d, UpdateDirectoryStats(d, dirId), fk);
  }

  /** Recomputing the stats twice gives what recomputing them once does. */
  lemma UpdateDirectoryStatsIdempotent(d: Db, dirId: int)
    ensures UpdateDirectoryStats(UpdateDirectoryStats(d, dirId), dirId) == UpdateDirectoryStats(d, dirId)
  {
  }

  // ------------------------------------------------------------------ addFile

  /** The REPLACE keeps the constraints; with foreign keys on, only a file whose directory exists gets this far. */
  lemma ReplaceFileWf(d: Db, info: FileInfo, now: int, fk: bool)
    requires Wf(d, fk) && !AddFileRejected(d, info, fk)
    ensures Wf(ReplaceFile(d, info, now, fk), fk)
  {
    var r := ReplaceFile(d, info, now, fk);
    var row := NewFileRow(d, info, now);
    var kept := WithoutPath(d.files, info.path);
    assert row !in kept;
    NoDuplicatesSnoc(kept, row);
    assert forall f :: f in r.files <==> f in kept || f == row;
    assert forall f :: f in r.files ==> 1 <= f.id < r.nextFileId;
    assert FilesWf(r.files, r.nextFileId);
    if fk {
      var gone := FileIdsWithPath(d.files, info.path);
      forall l | l in r.links ensures FindFile(r.files, l.fileId).Some? && FindTag(r.tags, l.tagId).Some? {
        var f := FindFile(d.files, l.fileId).value;
        assert f.path != info.path;
        assert f in r.files;
      }
    }
  }

  /** `addFile` keeps the constraints. */
  lemma AddFileWf(d: Db, info: FileInfo, now: int, fk: bool)
    requires Wf(d, fk)
    ensures Wf(AddFile(d, info, now, fk), fk)
  {
    if !AddFileRejected(d, info, fk) {
      ReplaceFileWf(d, info, now, fk);
      var d1 := ReplaceFile(d, info, now, fk);
      var dir := StoredDirectory(info.directoryId);
      if dir.Some? {
        UpdateDirectoryStatsEffect(d1, dir.value, fk);
      }
    }
  }

  /**
   * Re-adding a path REPLACEs its row: afterwards exactly one row holds the path, it carries
   * a fresh id no earlier row had (so the old id and `created_at` are lost), every other path
   * keeps its row, and the old row's tags are dropped when foreign keys cascade but left
   * behind, pointing at the vanished id, when they are off.
   */
  lemma AddFileReplaces(d: Db, info: FileInfo, now: int, fk: bool)
    requires Wf(d, fk) && !AddFileRejected(d, info, fk)
    ensures var r := AddFile(d, info, now, fk);
            var row := NewFileRow(d, info, now);
      && FindFileByPath(r.files, info.path) == Some(row)
      && (forall f :: f in r.files <==> f == row || (f in d.files && f.path != info.path))
      && (forall f :: f in d.files ==> f.id != row.id)
      && row.id == d.nextFileId && r.nextFileId == d.nextFileId + 1
      && row.createdAt == now && row.updatedAt == now
      && r.lastInsertRowid == row.id
      && (fk ==> forall l :: l in r.links <==> l in d.links && l.fileId !in FileIdsWithPath(d.files, info.path))
      && (!fk ==> r.links == d.links)
      && r.tags == d.tags && r.settings == d.settings
  {
    AddFileWf(d, info, now, fk);
    var r := AddFile(d, info, now, fk);
    var row := NewFileRow(d, info, now);
    assert row in r.files;
  }

  /**
   * What the REPLACE does to tags: after re-adding a tagged file's path its old id names
   * no row. With foreign keys on, the old links are gone and the new row has no tags;
   * with them off, the old links stay, pointing at the vanished id.
   */
  lemma ReAddLosesTags(d: Db, info: FileInfo, now: int, fk: bool, f: FileRow, l: LinkRow)
    requires Wf(d, fk) && !AddFileRejected(d, info, fk)
    requires f in d.files && f.path == info.path
    requires l in d.links && l.fileId == f.id
    ensures var r := AddFile(d, info, now, fk);
      && FindFile(r.files, f.id).None?
      && (fk ==> l !in r.links && forall t :: t !in GetFileTags(r, d.nextFileId))
      && (!fk ==> l in r.links)
  {
    AddFileReplaces(d, info, now, fk);
    var r := AddFile(d, info, now, fk);
    assert f.id in FileIdsWithPath(d.files, info.path);
    if fk {
      forall m | m in r.links ensures m.fileId != d.nextFileId {
        assert FindFile(d.files, m.fileId).value in d.files;
      }
    }
  }

  /** A file without a directory id (or with id 0) leaves the directories alone. */
  lemma AddFileWithoutDirectory(d: Db, info: FileInfo, now: int, fk: bool)
    requires StoredDirectory(info.directoryId).None?
    ensures AddFile(d, info, now, fk).directories == d.directories
    ensures !AddFileRejected(d, info, fk)
  {
  }

  /** A file with a directory refreshes that directory's stats from the table as it is after the REPLACE. */
  lemma AddFileRefreshesStats(d: Db, info: FileInfo, now: int, fk: bool)
    requires Wf(d, fk) && !AddFileRejected(d, info, fk)
    requires info.directoryId.Some? && info.directoryId.value != 0
    ensures var r := AddFile(d, info, now, fk);
            var id := info.directoryId.value;
      && (forall x :: x in r.directories && x.id == id ==>
            x.filesCount == |FilesOf(r.files, id)| && x.totalSize == SizeIn(r.files, id))
      && (forall x :: x in r.directories && x.id != id ==> x in d.directories)
      && r.files == ReplaceFile(d, info, now, fk).files
  {
    var d1 := ReplaceFile(d, info, now, fk);
    var id := info.directoryId.value;
    ReplaceFileWf(d, info, now, fk);
    var r := UpdateDirectoryStats(d1, id);
    assert r == AddFile(d, info, now, fk);
    UpdateDirectoryStatsEffect(d1, id, fk);
    assert forall x :: x in r.directories && x.id == id ==>
             x.filesCount == |FilesOf(r.files, id)| && x.totalSize == SizeIn(r.files, id) by {
      forall x | x in r.directories && x.id == id
        ensures x.filesCount == |FilesOf(r.files, id)| && x.totalSize == SizeIn(r.files, id)
      {
        var i :| 0 <= i < |r.directories| && r.directories[i] == x;
      }
    }
    assert forall x :: x in r.directories && x.id != id ==> x in d.directories by {
      forall x | x in r.directories && x.id != id ensures x in d.directories {
        var i :| 0 <= i < |r.directories| && r.directories[i] == x;
        assert d1.directories[i] == x;
      }
    }
  }

  // ------------------------------------------------------------------ deleteFile

  /** `deleteFile` keeps the constraints: with foreign keys on, the cascade takes the file's links along. */
  lemma DeleteFileWf(d: Db, fileId: int, fk: bool)
    requires Wf(d, fk)
    ensures Wf(DeleteFile(d, fileId, fk), fk)
  {
    var r := DeleteFile(d, fileId, fk);
    if fk {
      forall l | l in r.links ensures FindFile(r.files, l.fileId).Some? {
        assert FindFile(d.files, l.fileId).value in r.files;
      }
    }
  }

  /**
   * `deleteFile` removes the row with that id and nothing else from `files`, reports one
   * change when the row existed and none otherwise, and cascades to the file's links only
   * when foreign keys are on.
   */
  lemma DeleteFileEffect(d: Db, fileId: int, fk: bool)
    requires Wf(d, fk)
    ensures var r := DeleteFile(d, fileId, fk);
      && FindFile(r.files, fileId).None?
      && (FindFile(d.files, fileId).Some? ==> FindFileByPath(r.files, FindFile(d.files, fileId).value.path).None?)
      && (forall f :: f in r.files <==> f in d.files && f.id != fileId)
      && |d.files| - |r.files| == (if FindFile(d.files, fileId).Some? then 1 else 0)
      && (fk ==> forall l :: l in r.links <==> l in d.links && l.fileId != fileId)
      && (!fk ==> r.links == d.links)
  {
    var hit := set f | f in d.files && f.id == fileId;
    if FindFile(d.files, fileId).Some? {
      assert hit == {FindFile(d.files, fileId).value};
    } else {
      assert hit == {};
    }
  }

  // ------------------------------------------------------------------ tags

  /** `addTag` keeps the constraints. */
  lemma AddTagWf(d: Db, name: string, color: string, now: int, fk: bool)
    requires Wf(d, fk)
    ensures Wf(AddTag(d, name, color, now), fk)
  {
    if FindTagByName(d.tags, name).None? {
      TagsSnocWf(d.tags, d.nextTagId, TagRow(d.nextTagId, name, color, now));
    }
  }

  /** A tag with a name not taken yet, under the next id, keeps `tags` well formed. */
  lemma TagsSnocWf(tags: seq<TagRow>, next: int, row: TagRow)
    requires TagsWf(tags, next) && row.id == next
    requires FindTagByName(tags, row.name).None?
    ensures TagsWf(tags + [row], next + 1)
  {
    assert row !in tags;
    NoDuplicatesSnoc(tags, row);
  }

  /**
   * After `addTag` a tag with that name exists; an existing tag keeps its id and colour
   * (INSERT OR IGNORE) and the database is untouched, a new one gets the next id.
   */
  lemma AddTagEffect(d: Db, name: string, color: string, now: int, fk: bool)
    requires Wf(d, fk)
    ensures var r := AddTag(d, name, color, now);
      && FindTagByName(r.tags, name).Some?
      && (FindTagByName(d.tags, name).Some? ==> r == d)
      && (FindTagByName(d.tags, name).None? ==>
            && FindTagByName(r.tags, name) == Some(TagRow(d.nextTagId, name, color, now))
            && r.lastInsertRowid == d.nextTagId
            && forall t :: t in r.tags <==> t in d.tags || t == TagRow(d.nextTagId, name, color, now))
  {
    AddTagWf(d, name, color, now, fk);
  }

  /** Adding the same tag name twice is adding it once, whatever the second colour. */
  lemma AddTagIdempotent(d: Db, name: string, color: string, color2: string, now: int, now2: int)
    ensures AddTag(AddTag(d, name, color, now), name, color2, now2) == AddTag(d, name, color, now)
  {
    var r := AddTag(d, name, color, now);
    assert FindTagByName(r.tags, name).Some? by {
      if FindTagByName(d.tags, name).None? {
        assert r.tags[|r.tags| - 1] in r.tags;
      }
    }
  }

  /** `deleteTag` removes the tag; its links go only when the cascade is enforced. */
  lemma DeleteTagEffect(d: Db, tagId: int, fk: bool)
    requires Wf(d, fk)
    ensures var r := DeleteTag(d, tagId, fk);
      && Wf(r, fk)
      && FindTag(r.tags, tagId).None?
      && (forall t :: t in r.tags <==> t in d.tags && t.id != tagId)
      && (fk ==> forall l :: l in r.links <==> l in d.links && l.tagId != tagId)
      && (!fk ==> r.links == d.links)
      && r.files == d.files
  {
    var r := DeleteTag(d, tagId, fk);
    if fk {
      forall l | l in r.links ensures FindTag(r.tags, l.tagId).Some? {
        assert FindTag(d.tags, l.tagId).value in r.tags;
      }
    }
  }

  // ------------------------------------------------------------------ file_tags

  /** `tagFile` keeps the constraints; with foreign keys on, a link to a missing end is refused. */
  lemma TagFileWf(d: Db, fileId: int, tagId: int, now: int, fk: bool)
    requires Wf(d, fk)
    ensures Wf(TagFile(d, fileId, tagId, now, fk), fk)
  {
    if FindLink(d.links, fileId, tagId).None? && !TagFileRejected(d, fileId, tagId, fk) {
      LinksSnocWf(d.links, d.nextLinkId, LinkRow(d.nextLinkId, fileId, tagId, now));
    }
  }

  /** A link for a pair not linked yet, under the next id, keeps `file_tags` well formed. */
  lemma LinksSnocWf(links: seq<LinkRow>, next: int, row: LinkRow)
    requires LinksWf(links, next) && row.id == next
    requires FindLink(links, row.fileId, row.tagId).None?
    ensures LinksWf(links + [row], next + 1)
  {
    assert row !in links;
    NoDuplicatesSnoc(links, row);
  }

  /**
   * After `tagFile` the pair is linked unless the foreign keys refused it; an existing link
   * is ignored, so tagging twice is tagging once.
   */
  lemma TagFileEffect(d: Db, fileId: int, tagId: int, now: int, now2: int, fk: bool)
    ensures var r := TagFile(d, fileId, tagId, now, fk);
      && (TagFileRejected(d, fileId, tagId, fk) <==> FindLink(r.links, fileId, tagId).None?)
      && (FindLink(d.links, fileId, tagId).Some? || TagFileRejected(d, fileId, tagId, fk) ==> r == d)
      && TagFile(r, fileId, tagId, now2, fk) == r
  {
    var r := TagFile(d, fileId, tagId, now, fk);
    if FindLink(d.links, fileId, tagId).None? && !TagFileRejected(d, fileId, tagId, fk) {
      assert r.links[|r.links| - 1] in r.links;
    }
  }

  /** Untagging right after tagging a new pair gives the links back as they were. */
  lemma UntagAfterTag(d: Db, fileId: int, tagId: int, now: int, fk: bool)
    requires FindLink(d.links, fileId, tagId).None?
    ensures UntagFile(TagFile(d, fileId, tagId, now, fk), fileId, tagId).links == d.links
  {
    var keep := (l: LinkRow) => !(l.fileId == fileId && l.tagId == tagId);
    if !TagFileRejected(d, fileId, tagId, fk) {
      var row := LinkRow(d.nextLinkId, fileId, tagId, now);
      FilterAppend(d.links, [row], keep);
      assert Filter([row], keep) == [];
    }
  }

  /** `untagFile` removes that pair's link (one change if it existed) and no other. */
  lemma UntagFileEffect(d: Db, fileId: int, tagId: int, fk: bool)
    requires Wf(d, fk)
    ensures var r := UntagFile(d, fileId, tagId);
      && Wf(r, fk)
      && FindLink(r.links, fileId, tagId).None?
      && (forall l :: l in r.links <==> l in d.links && !(l.fileId == fileId && l.tagId == tagId))
      && |d.links| - |r.links| == (if FindLink(d.links, fileId, tagId).Some? then 1 else 0)
  {
    var hit := set l | l in d.links && l.fileId == fileId && l.tagId == tagId;
    if FindLink(d.links, fileId, tagId).Some? {
      assert hit == {FindLink(d.links, fileId, tagId).value};
    } else {
      assert hit == {};
    }
  }

  // ------------------------------------------------------------------ directories

  /** `addDirectory` keeps the constraints. */
  lemma AddDirectoryWf(d: Db, path: string, isWatching: bool, now: int, fk: bool)
    requires Wf(d, fk)
    ensures Wf(AddDirectory(d, path, isWatching, now), fk)
  {
    if FindDirectoryByPath(d.directories, path).None? {
      var r := AddDirectory(d, path, isWatching, now);
      var row := r.directories[|r.directories| - 1];
      assert row !in d.directories;
      NoDuplicatesSnoc(d.directories, row);
      if fk {
        forall f | f in r.files && f.directoryId.Some?
          ensures FindDirectory(r.directories, f.directoryId.value).Some?
        {
          assert FindDirectory(d.directories, f.directoryId.value).value in r.directories;
        }
      }
    }
  }

  /**
   * After `addDirectory` the path has a row; a known path keeps its row and id (INSERT OR
   * IGNORE, so the watching flag passed is ignored), a new one gets the next id, the last
   * path segment as its name and empty stats. Adding twice is adding once.
   */
  lemma AddDirectoryEffect(d: Db, path: string, isWatching: bool, isWatching2: bool, now: int, now2: int, fk: bool)
    requires Wf(d, fk)
    ensures var r := AddDirectory(d, path, isWatching, now);
      && FindDirectoryByPath(r.directories, path).Some?
      && (FindDirectoryByPath(d.directories, path).Some? ==> r == d)
      && (FindDirectoryByPath(d.directories, path).None? ==>
            FindDirectoryByPath(r.directories, path)
              == Some(DirectoryRow(d.nextDirectoryId, path, Paths.DirectoryName(path), isWatching, 0, 0, 0, now)))
      && AddDirectory(r, path, isWatching2, now2) == r
  {
    AddDirectoryWf(d, path, isWatching, now, fk);
    var r := AddDirectory(d, path, isWatching, now);
    if FindDirectoryByPath(d.directories, path).None? {
      assert r.directories[|r.directories| - 1] in r.directories;
    }
  }

  /** Toggling flips `is_watching` of that row only; an unknown id changes nothing. */
  lemma ToggleDirectoryMonitoringEffect(d: Db, dirId: int, fk: bool)
    requires Wf(d, fk)
    ensures var r := ToggleDirectoryMonitoring(d, dirId);
      && Wf(r, fk)
      && (FindDirectory(d.directories, dirId).None? ==> r == d)
      && |r.directories| == |d.directories|
      && (forall i :: 0 <= i < |d.directories| && d.directories[i].id != dirId ==>
            r.directories[i] == d.directories[i])
      && (forall i :: 0 <= i < |d.directories| && d.directories[i].id == dirId ==>
            && r.directories[i].isWatching == !d.directories[i].isWatching
            && r.directories[i].(isWatching := d.directories[i].isWatching) == d.directories[i])
  {
    if FindDirectory(d.directories, dirId).Some? {
      DirectoriesRewrittenWf(d, ToggleDirectoryMonitoring(d, dirId), fk);
    } else {
      forall i | 0 <= i < |d.directories| ensures d.directories[i].id != dirId {
        assert d.directories[i] in d.directories;
      }
    }
  }

  /** Toggling twice restores the database. */
  lemma ToggleTwice(d: Db, dirId: int, fk: bool)
    requires Wf(d, fk)
    ensures ToggleDirectoryMonitoring(ToggleDirectoryMonitoring(d, dirId), dirId) == d
  {
    if FindDirectory(d.directories, dirId).Some? {
      ToggledTwice(d.directories, dirId);
    }
  }

  lemma ToggledTwice(dirs: seq<DirectoryRow>, dirId: int)
    requires FindDirectory(dirs, dirId).Some?
    ensures FindDirectory(WithWatchingToggled(dirs, dirId), dirId).Some?
    ensures WithWatchingToggled(WithWatchingToggled(dirs, dirId), dirId) == dirs
  {
    var once := WithWatchingToggled(dirs, dirId);
    var i :| 0 <= i < |dirs| && dirs[i] == FindDirectory(dirs, dirId).value;
    assert once[i] in once;
    var twice := WithWatchingToggled(once, dirId);
    assert forall k :: 0 <= k < |dirs| ==> twice[k] == dirs[k];
  }

  /** `updateDirectoryScanTime` stamps that row's `last_scan` and changes nothing else. */
  lemma UpdateDirectoryScanTimeEffect(d: Db, dirId: int, now: int, fk: bool)
    requires Wf(d, fk)
    ensures var r := UpdateDirectoryScanTime(d, dirId, now);
      && Wf(r, fk)
      && |r.directories| == |d.directories|
      && (forall i :: 0 <= i < |d.directories| && d.directories[i].id != dirId ==>
            r.directories[i] == d.directories[i])
      && (forall i :: 0 <= i < |d.directories| && d.directories[i].id == dirId ==>
            && r.directories[i].lastScan == now
            && r.directories[i].(lastScan := d.directories[i].lastScan) == d.directories[i])
  {
    DirectoriesRewrittenWf(d, UpdateDirectoryScanTime(d, dirId, now), fk);
  }

  // ------------------------------------------------------------------ clearData

  /**
   * `clearData` empties files, tags and links, keeps every directory (same ids, paths and
   * flags) with zeroed stats, and keeps the settings; AUTOINCREMENT counters are not reset.
   */
  lemma ClearDataEffect(d: Db, fk: bool)
    requires Wf(d, fk)
    ensures var r := ClearData(d);
      && Wf(r, fk)
      && r.files == [] && r.tags == [] && r.links == []
      && r.settings == d.settings
      && r.nextFileId == d.nextFileId && r.nextTagId == d.nextTagId && r.nextLinkId == d.nextLinkId
      && |r.directories| == |d.directories|
      && forall i :: 0 <= i < |d.directories| ==>
           r.directories[i] == d.directories[i].(filesCount := 0, totalSize := 0)
  {
    SameKeysWf(d.directories, ClearData(d).directories, d.nextDirectoryId);
  }

  // ------------------------------------------------------------------ settings

  /** One setting insert keeps the constraints and never overwrites an existing key. */
  lemma InsertSettingEffect(d: Db, key: string, value: string, fk: bool)
    requires Wf(d, fk)
    ensures var r := InsertSetting(d, key, value);
      && Wf(r, fk)
      && FindSetting(r.settings, key).Some?
      && (FindSetting(d.settings, key).Some? ==> r == d)
      && (forall s :: s in d.settings ==> s in r.settings)
      && (forall s :: s in r.settings ==> s in d.settings || s == SettingRow(d.nextSettingId, key, value))
  {
    if FindSetting(d.settings, key).None? {
      var row := SettingRow(d.nextSettingId, key, value);
      assert row !in d.settings;
      NoDuplicatesSnoc(d.settings, row);
      var r := InsertSetting(d, key, value);
      assert r.settings[|r.settings| - 1] in r.settings;
    }
  }

  /**
   * A run of setting inserts keeps the constraints, leaves every existing row as it was,
   * ends with a row for every key inserted, and every new row holds one of the pairs.
   */
  lemma {:induction false} InsertSettingsEffect(d: Db, pairs: seq<(string, string)>, fk: bool)
    requires Wf(d, fk)
    ensures var r := InsertSettings(d, pairs);
      && Wf(r, fk)
      && (forall s :: s in d.settings ==> s in r.settings)
      && (forall p :: p in pairs ==> FindSetting(r.settings, p.0).Some?)
      && (forall s :: s in r.settings ==> s in d.settings || (s.key, s.value) in pairs)
      && r.files == d.files && r.directories == d.directories && r.tags == d.tags && r.links == d.links
    decreases |pairs|
  {
    if pairs != [] {
      var d1 := InsertSetting(d, pairs[0].0, pairs[0].1);
      InsertSettingEffect(d, pairs[0].0, pairs[0].1, fk);
      InsertSettingsEffect(d1, pairs[1..], fk);
      var r := InsertSettings(d, pairs);
      forall p | p in pairs ensures FindSetting(r.settings, p.0).Some? {
        if p == pairs[0] {
          assert FindSetting(d1.settings, p.0).value in r.settings;
        } else {
          assert p in pairs[1..];
        }
      }
      forall s | s in r.settings ensures s in d.settings || (s.key, s.value) in pairs {
        if (s.key, s.value) !in pairs[1..] && s !in d.settings {
          assert s in d1.settings;
          assert (s.key, s.value) == pairs[0];
        }
      }
    }
  }

  /** The rows a run of inserts appends when none of its keys is present yet, ids counting up from `id`. */
  function NewSettingRows(id: int, pairs: seq<(string, string)>): (rows: seq<SettingRow>)
    ensures |rows| == |pairs|
    ensures forall i {:trigger rows[i]} :: 0 <= i < |pairs| ==> rows[i] == SettingRow(id + i, pairs[i].0, pairs[i].1)
    decreases |pairs|
  {
    if pairs == [] then [] else [SettingRow(id, pairs[0].0, pairs[0].1)] + NewSettingRows(id + 1, pairs[1..])
  }

  /** Inserting keys that are distinct and new appends one row per pair, in order. */
  lemma {:induction false} InsertDistinctSettings(d: Db, pairs: seq<(string, string)>)
    requires forall i, j :: 0 <= i < j < |pairs| ==> pairs[i].0 != pairs[j].0
    requires forall s, i :: s in d.settings && 0 <= i < |pairs| ==> s.key != pairs[i].0
    ensures InsertSettings(d, pairs).settings == d.settings + NewSettingRows(d.nextSettingId, pairs)
    decreases |pairs|
  {
    if pairs != [] {
      InsertedKeysStayNew(d, pairs);
      InsertDistinctSettings(InsertSetting(d, pairs[0].0, pairs[0].1), pairs[1..]);
      InsertDistinctStep(d, pairs);
    }
  }

  /** One step of `InsertDistinctSettings`: a new first key puts its row in front of the rest. */
  lemma InsertDistinctStep(d: Db, pairs: seq<(string, string)>)
    requires pairs != []
    requires forall s :: s in d.settings ==> s.key != pairs[0].0
    requires var d1 := InsertSetting(d, pairs[0].0, pairs[0].1);
      InsertSettings(d1, pairs[1..]).settings == d1.settings + NewSettingRows(d1.nextSettingId, pairs[1..])
    ensures InsertSettings(d, pairs).settings == d.settings + NewSettingRows(d.nextSettingId, pairs)
  {
    var row := SettingRow(d.nextSettingId, pairs[0].0, pairs[0].1);
    var rest := NewSettingRows(d.nextSettingId + 1, pairs[1..]);
    InsertSettingsCons(d, pairs);
    InsertNewSetting(d, pairs[0].0, pairs[0].1);
    NewSettingRowsCons(d.nextSettingId, pairs);
    AppendAssociates(d.settings, [row], rest);
  }

  /** A run of inserts is its first insert followed by the rest. */
  lemma InsertSettingsCons(d: Db, pairs: seq<(string, string)>)
    requires pairs != []
    ensures InsertSettings(d, pairs) == InsertSettings(InsertSetting(d, pairs[0].0, pairs[0].1), pairs[1..])
  {
  }

  /** After the first pair goes in, the remaining keys are still new. */
  lemma InsertedKeysStayNew(d: Db, pairs: seq<(string, string)>)
    requires pairs != []
    requires forall i, j :: 0 <= i < j < |pairs| ==> pairs[i].0 != pairs[j].0
    requires forall s, i :: s in d.settings && 0 <= i < |pairs| ==> s.key != pairs[i].0
    ensures forall i, j :: 0 <= i < j < |pairs[1..]| ==> pairs[1..][i].0 != pairs[1..][j].0
    ensures forall s, i :: s in InsertSetting(d, pairs[0].0, pairs[0].1).settings && 0 <= i < |pairs[1..]| ==>
              s.key != pairs[1..][i].0
  {
    InsertNewSetting(d, pairs[0].0, pairs[0].1);
    forall i, j | 0 <= i < j < |pairs[1..]| ensures pairs[1..][i].0 != pairs[1..][j].0 {
      assert pairs[1..][i] == pairs[i + 1] && pairs[1..][j] == pairs[j + 1];
    }
    forall s, i | s in InsertSetting(d, pairs[0].0, pairs[0].1).settings && 0 <= i < |pairs[1..]|
      ensures s.key != pairs[1..][i].0
    {
      assert pairs[1..][i] == pairs[i + 1];
    }
  }

  /** `NewSettingRows` of a non-empty run starts with the row of its first pair. */
  lemma NewSettingRowsCons(id: int, pairs: seq<(string, string)>)
    requires pairs != []
    ensures NewSettingRows(id, pairs) == [SettingRow(id, pairs[0].0, pairs[0].1)] + NewSettingRows(id + 1, pairs[1..])
  {
  }

  /** An insert of a key no row holds appends its row under the next id. */
  lemma InsertNewSetting(d: Db, key: string, value: string)
    requires forall s :: s in d.settings ==> s.key != key
    ensures InsertSetting(d, key, value).settings == d.settings + [SettingRow(d.nextSettingId, key, value)]
    ensures InsertSetting(d, key, value).nextSettingId == d.nextSettingId + 1
  {
  }

  /**
   * A new database file holds exactly the six defaults with their values, in
   * `Object.entries` order, under ids 1 to 6.
   */
  lemma FreshDatabaseSettings()
    ensures var settings := InsertSettings(EmptyDb(), DefaultSettings).settings;
      && |settings| == |DefaultSettings|
      && forall i :: 0 <= i < |DefaultSettings| ==>
           settings[i] == SettingRow(i + 1, DefaultSettings[i].0, DefaultSettings[i].1)
  {
    var defaults := DefaultSettings;
    forall i, j | 0 <= i < j < |defaults| ensures defaults[i].0 != defaults[j].0 {
      DefaultKeysDiffer(i, j);
    }
    InsertDistinctSettings(EmptyDb(), defaults);
  }

  /** The default keys are pairwise different; a witness position is given for each pair. */
  lemma DefaultKeysDiffer(i: nat, j: nat)
    requires i < j < |DefaultSettings|
    ensures DefaultSettings[i].0 != DefaultSettings[j].0
  {
    var keys := seq(|DefaultSettings|, k requires 0 <= k < |DefaultSettings| => DefaultSettings[k].0);
    // First letters: a, a, m, i, c, i; the two pairs that share one differ at 6 and at 1.
    if i == 0 && j == 1 {
      assert keys[0][6] != keys[1][6];
    } else if i == 3 && j == 5 {
      assert keys[3][1] != keys[5][1];
    } else {
      assert keys[i][0] != keys[j][0];
    }
  }

  /** The inserts of a run, one more at the end. */
  lemma {:induction false} InsertSettingsSnoc(d: Db, pairs: seq<(string, string)>, key: string, value: string)
    ensures InsertSettings(d, pairs + [(key, value)]) == InsertSetting(InsertSettings(d, pairs), key, value)
    decreases |pairs|
  {
    if pairs == [] {
      assert pairs + [(key, value)] == [(key, value)];
    } else {
      assert (pairs + [(key, value)])[1..] == pairs[1..] + [(key, value)];
      InsertSettingsSnoc(InsertSetting(d, pairs[0].0, pairs[0].1), pairs[1..], key, value);
    }
  }
}
