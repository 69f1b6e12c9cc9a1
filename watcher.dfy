/**
 * `FileWatcher` (src/main/fileWatcher.js): a registry of chokidar watchers keyed by
 * directory path, the event handlers that turn file events into catalog calls, and the
 * recursive indexer.
 *
 * A chokidar watcher is an opaque handle that is created and later closed; the model
 * records the handles closed so far. `fs.stat` answers arrive as parameters and a
 * directory tree arrives as a `FileSystem.Node` snapshot.
 */
module Watcher {
  import opened Wrappers
  import opened Seqs
  import opened Catalog
  import opened CatalogFacts
  import opened FileSystem
  import opened Database
  import Paths

  // ------------------------------------------------------------------ catalog effect of a run of upserts

  /** `addFile` applied to each record in turn. */
  function AddFiles(d: Db, infos: seq<FileInfo>, now: int, fk: bool): Db
    decreases |infos|
  {
    if infos == [] then d else AddFiles(Catalog.AddFile(d, infos[0], now, fk), infos[1..], now, fk)
  }

  lemma {:induction false} AddFilesAppend(d: Db, xs: seq<FileInfo>, ys: seq<FileInfo>, now: int, fk: bool)
    ensures AddFiles(d, xs + ys, now, fk) == AddFiles(AddFiles(d, xs, now, fk), ys, now, fk)
    decreases |xs|
  {
    if xs == [] {
      assert xs + ys == ys;
    } else {
      assert (xs + ys)[1..] == xs[1..] + ys;
      AddFilesAppend(Catalog.AddFile(d, xs[0], now, fk), xs[1..], ys, now, fk);
    }
  }

  /** Upserting the files of one more entry of a listing continues from the files of the entries before it. */
  lemma AddFilesNextEntry(d: Db, path: string, entries: seq<Entry>, i: nat, now: int, fk: bool)
    requires i < |entries|
    ensures AddFiles(d, TraverseEntries(path, entries[..i + 1]), now, fk)
         == AddFiles(AddFiles(d, TraverseEntries(path, entries[..i]), now, fk), Visit(path, entries[i]), now, fk)
  {
    assert entries[..i + 1][..i] == entries[..i];
    AddFilesAppend(d, TraverseEntries(path, entries[..i]), Visit(path, entries[i]), now, fk);
  }

  /** One upsert without a directory id keeps every path the catalog had and adds its own. */
  lemma AddFileKeepsPaths(d: Db, info: FileInfo, now: int, fk: bool)
    requires info.directoryId.None?
    ensures var r := Catalog.AddFile(d, info, now, fk);
      && FindFileByPath(r.files, info.path).Some?
      && (forall f :: f in d.files ==> FindFileByPath(r.files, f.path).Some?)
      && r.directories == d.directories
  {
    var r := Catalog.AddFile(d, info, now, fk);
    assert NewFileRow(d, info, now) in r.files;
    forall f | f in d.files ensures FindFileByPath(r.files, f.path).Some? {
      if f.path != info.path {
        assert f in r.files;
      }
    }
  }

  /**
   * Upserts without a directory id leave every earlier path in the catalog, add every path
   * they carry, and never touch the directories (so no stats are recomputed).
   */
  lemma {:induction false} AddFilesCovers(d: Db, infos: seq<FileInfo>, now: int, fk: bool)
    requires forall info :: info in infos ==> info.directoryId.None?
    ensures var r := AddFiles(d, infos, now, fk);
      && (forall info :: info in infos ==> FindFileByPath(r.files, info.path).Some?)
      && (forall f :: f in d.files ==> FindFileByPath(r.files, f.path).Some?)
      && r.directories == d.directories
    decreases |infos|
  {
    if infos != [] {
      var d1 := Catalog.AddFile(d, infos[0], now, fk);
      AddFileKeepsPaths(d, infos[0], now, fk);
      AddFilesCovers(d1, infos[1..], now, fk);
      var r := AddFiles(d, infos, now, fk);
      forall info | info in infos ensures FindFileByPath(r.files, info.path).Some? {
        if info == infos[0] {
          assert FindFileByPath(d1.files, info.path).value in d1.files;
        } else {
          assert info in infos[1..];
        }
      }
      forall f | f in d.files ensures FindFileByPath(r.files, f.path).Some? {
        assert FindFileByPath(d1.files, f.path).value in d1.files;
      }
    }
  }

  lemma {:induction false} TraverseWithoutDirectory(path: string, node: Node, info: FileInfo)
    requires info in Traverse(path, node)
    ensures info.directoryId.None?
  {
    TraverseSound(path, node, info);
  }

  /** After indexing, every regular file reachable from the directory has a row under its joined path. */
  lemma IndexedFilesPresent(d: Db, path: string, node: Node, names: seq<string>, size: int, mtime: int, now: int, fk: bool)
    requires Reaches(node, names, size, mtime)
    ensures var r := AddFiles(d, Traverse(path, node), now, fk);
      && FindFileByPath(r.files, Under(path, names)).Some?
      && r.directories == d.directories
  {
    TraverseComplete(path, node, names, size, mtime);
    forall info | info in Traverse(path, node) ensures info.directoryId.None? {
      TraverseWithoutDirectory(path, node, info);
    }
    AddFilesCovers(d, Traverse(path, node), now, fk);
  }

  // ------------------------------------------------------------------ events

  /** The result of `fs.stat(filePath)` inside an event handler. */
  datatype StatResult = Stats(size: int, mtime: int) | StatFailed

  /** The chokidar events `_registerWatcherEvents` routes to the handlers. */
  datatype WatchEvent =
    | Add(path: string, stat: StatResult)
    | Change(path: string, stat: StatResult)
    | Unlink(path: string)
    | AddDir(path: string)
    | UnlinkDir(path: string)
    | Error

  /** The record an add or change handler passes to `addFile`: no directory id. */
  function EventFileInfo(path: string, size: int, mtime: int): (info: FileInfo)
    ensures info.directoryId.None? && info.size == Some(size) && info.mtime == Some(mtime)
    ensures '/' !in info.name
  {
    FileInfo(path, Paths.Basename(path), Some(size), Some(mtime), None)
  }

  /** The catalog after a handler for `ev` has run. */
  function EventEffect(d: Db, ev: WatchEvent, now: int, fk: bool): Db {
    match ev
    case Add(path, Stats(size, mtime)) => Catalog.AddFile(d, EventFileInfo(path, size, mtime), now, fk)
    case Change(path, Stats(size, mtime)) => Catalog.AddFile(d, EventFileInfo(path, size, mtime), now, fk)
    case Unlink(path) =>
      (match FindFileByPath(d.files, path)
       case Some(f) => Catalog.DeleteFile(d, f.id, fk)
       case None => d)
    case _ => d
  }

  /**
   * What each event does to the catalog: a readable add or change upserts a row for the
   * path named by its basename and leaves the directories alone; an unlink leaves no row
   * with that path; a failed stat and the directory and error events change nothing.
   */
  lemma EventEffectSpec(d: Db, ev: WatchEvent, now: int, fk: bool)
    requires Wf(d, fk)
    ensures var r := EventEffect(d, ev, now, fk);
      && Wf(r, fk)
      && ((ev.Add? || ev.Change?) && ev.stat.Stats? ==>
            && FindFileByPath(r.files, ev.path)
                 == Some(NewFileRow(d, EventFileInfo(ev.path, ev.stat.size, ev.stat.mtime), now))
            && r.directories == d.directories)
      && ((ev.Add? || ev.Change?) && ev.stat.StatFailed? ==> r == d)
      && (ev.Unlink? ==> && FindFileByPath(r.files, ev.path).None?
                         && (forall f :: f in r.files <==> f in d.files && f.path != ev.path)
                         && r.directories == d.directories)
      && (ev.Unlink? && FindFileByPath(d.files, ev.path).None? ==> r == d)
      && (ev.AddDir? || ev.UnlinkDir? || ev.Error? ==> r == d)
  {
    match ev {
      case Add(path, Stats(size, mtime)) =>
        UpsertEffect(d, EventFileInfo(path, size, mtime), now, fk);
      case Change(path, Stats(size, mtime)) =>
        UpsertEffect(d, EventFileInfo(path, size, mtime), now, fk);
      case Unlink(path) =>
        UnlinkEffect(d, path, fk);
      case _ =>
    }
  }

  /** An upsert without a directory id installs the new row and leaves the directories alone. */
  lemma UpsertEffect(d: Db, info: FileInfo, now: int, fk: bool)
    requires Wf(d, fk) && info.directoryId.None?
    ensures var r := Catalog.AddFile(d, info, now, fk);
      && Wf(r, fk)
      && FindFileByPath(r.files, info.path) == Some(NewFileRow(d, info, now))
      && r.directories == d.directories
  {
    AddFileReplaces(d, info, now, fk);
    AddFileWf(d, info, now, fk);
  }

  /**
   * The unlink handler removes exactly the row with the path, if there is one, and leaves
   * the directories (their stats included) as they were.
   */
  lemma UnlinkEffect(d: Db, path: string, fk: bool)
    requires Wf(d, fk)
    ensures var r := EventEffect(d, Unlink(path), 0, fk);
      && Wf(r, fk)
      && FindFileByPath(r.files, path).None?
      && (forall f :: f in r.files <==> f in d.files && f.path != path)
      && r.directories == d.directories
      && (FindFileByPath(d.files, path).None? ==> r == d)
  {
    var found := FindFileByPath(d.files, path);
    if found.Some? {
      var g := found.value;
      DeleteFileWf(d, g.id, fk);
      DeleteFileEffect(d, g.id, fk);
      var r := Catalog.DeleteFile(d, g.id, fk);
      assert forall f :: f in d.files ==> (f.id == g.id <==> f.path == path);
    }
  }

  // ------------------------------------------------------------------ the registry

  /** A chokidar watcher, known only by identity. */
  datatype Handle = Handle(token: nat)

  datatype Watch = Watch(path: string, handle: Handle)

  /** The keys of a registry, in `Map` insertion order. */
  function Keys(watchers: seq<Watch>): (keys: seq<string>)
    ensures |keys| == |watchers|
    ensures forall i :: 0 <= i < |watchers| ==> keys[i] == watchers[i].path
  {
    seq(|watchers|, i requires 0 <= i < |watchers| => watchers[i].path)
  }

  /** `Map.prototype.delete`: the entry with that key goes, the others keep their order. */
  function Remove(watchers: seq<Watch>, path: string): (r: seq<Watch>)
    ensures forall w :: w in r <==> w in watchers && w.path != path
    ensures NoDuplicates(watchers) ==> NoDuplicates(r)
  {
    Filter(watchers, (w: Watch) => w.path != path)
  }

  /** `Map.prototype.get`. */
  function Get(watchers: seq<Watch>, path: string): (r: Option<Handle>)
    ensures r.Some? ==> Watch(path, r.value) in watchers
    ensures r.None? <==> forall w :: w in watchers ==> w.path != path
  {
    match Find(watchers, (w: Watch) => w.path == path)
    case Some(w) => Some(w.handle)
    case None => None
  }

  /** Deleting the first key of a registry leaves the rest as it was. */
  lemma RemoveHead(watchers: seq<Watch>, path: string)
    requires |watchers| > 0 && watchers[0].path == path
    requires forall w :: w in watchers[1..] ==> w.path != path
    ensures Remove(watchers, path) == watchers[1..]
  {
  }

  lemma HeadKeyUnique(watchers: seq<Watch>)
    requires |watchers| > 0 && UniqueKeys(watchers)
    ensures forall w :: w in watchers[1..] ==> w.path != watchers[0].path
  {
    forall w | w in watchers[1..] ensures w.path != watchers[0].path {
      var k :| 0 <= k < |watchers[1..]| && watchers[1..][k] == w;
      assert watchers[k + 1] == w;
    }
  }

  ghost predicate UniqueKeys(watchers: seq<Watch>) {
    forall i, j :: 0 <= i < j < |watchers| ==> watchers[i].path != watchers[j].path
  }

  /** With unique keys a watched path is listed exactly once. */
  lemma {:induction false} KeyListedOnce(watchers: seq<Watch>, path: string)
    requires UniqueKeys(watchers)
    ensures Count(Keys(watchers), path) == if Get(watchers, path).Some? then 1 else 0
  {
    var keys := Keys(watchers);
    assert NoDuplicates(keys);
    CountNoDuplicates(keys, path);
    if Get(watchers, path).Some? {
      var i :| 0 <= i < |watchers| && watchers[i] == Watch(path, Get(watchers, path).value);
      assert keys[i] == path;
    }
  }

  ghost predicate UniqueHandles(watchers: seq<Watch>) {
    forall i, j :: 0 <= i < j < |watchers| ==> watchers[i].handle != watchers[j].handle
  }

  /** Every registered handle was handed out and is still open. */
  ghost predicate Live(watchers: seq<Watch>, closed: set<Handle>, nextToken: nat) {
    forall w :: w in watchers ==> w.handle.token < nextToken && w.handle !in closed
  }

  /**
   * Removing a key keeps keys and handles unique; the removed key's handle is no longer
   * registered, so it can be closed while the rest stay live.
   */
  lemma RemoveKeepsInvariant(watchers: seq<Watch>, path: string)
    requires UniqueKeys(watchers) && UniqueHandles(watchers)
    ensures var r := Remove(watchers, path);
      && UniqueKeys(r) && UniqueHandles(r)
      && (Get(watchers, path).Some? ==> forall w :: w in r ==> w.handle != Get(watchers, path).value)
      && (Get(watchers, path).None? ==> r == watchers)
  {
    var r := Remove(watchers, path);
    assert NoDuplicates(watchers);
    forall i, j | 0 <= i < j < |r| ensures r[i].path != r[j].path && r[i].handle != r[j].handle {
      assert r[i] in watchers && r[j] in watchers;
      var a :| 0 <= a < |watchers| && watchers[a] == r[i];
      var b :| 0 <= b < |watchers| && watchers[b] == r[j];
      assert r[i] != r[j];
    }
    if Get(watchers, path).Some? {
      var h := Get(watchers, path).value;
      forall w | w in r ensures w.handle != h {
        var a :| 0 <= a < |watchers| && watchers[a] == w;
        var b :| 0 <= b < |watchers| && watchers[b] == Watch(path, h);
        assert a != b;
      }
    } else {
      assert forall w :: w in watchers ==> w.path != path;
    }
  }

  /** Appending a new key with a new handle keeps keys and handles unique. */
  lemma AppendKeepsInvariant(watchers: seq<Watch>, w: Watch)
    requires UniqueKeys(watchers) && UniqueHandles(watchers)
    requires forall x :: x in watchers ==> x.path != w.path && x.handle != w.handle
    ensures UniqueKeys(watchers + [w]) && UniqueHandles(watchers + [w])
  {
    var r := watchers + [w];
    forall i, j | 0 <= i < j < |r| ensures r[i].path != r[j].path && r[i].handle != r[j].handle {
      if j == |watchers| {
        assert r[i] in watchers;
      } else {
        assert r[i] == watchers[i] && r[j] == watchers[j];
      }
    }
  }

  class FileWatcher {
    var watchers: seq<Watch>
    var isWatching: bool
    /** The handles closed so far, in no particular order. */
    var closed: set<Handle>
    /** Tokens below this have been handed out. */
    var nextToken: nat
    /** The `dbManager` singleton the handlers write to. */
    const db: DatabaseManager

    ghost predicate Valid()
      reads this
    {
      && UniqueKeys(watchers)
      && UniqueHandles(watchers)
      && (isWatching <==> |watchers| > 0)
      && Live(watchers, closed, nextToken)
      && (forall h :: h in closed ==> h.token < nextToken)
    }

    constructor (db: DatabaseManager)
      ensures Valid() && this.db == db
      ensures watchers == [] && !isWatching && closed == {}
    {
      this.db := db;
      watchers := [];
      isWatching := false;
      closed := {};
      nextToken := 0;
    }

    /** `getWatchedDirectories()`. */
    function GetWatchedDirectories(): (keys: seq<string>)
      reads this
      requires Valid()
      ensures |keys| == |watchers|
      ensures forall path :: path in keys <==> Get(watchers, path).Some?
      ensures NoDuplicates(keys)
    {
      var keys := Keys(watchers);
      assert forall path :: path in keys <==> Get(watchers, path).Some? by {
        forall path ensures path in keys <==> Get(watchers, path).Some? {
          if path in keys {
            var i :| 0 <= i < |keys| && keys[i] == path;
            assert watchers[i] in watchers;
          }
          if Get(watchers, path).Some? {
            var i :| 0 <= i < |watchers| && watchers[i] == Watch(path, Get(watchers, path).value);
            assert keys[i] == path;
          }
        }
      }
      keys
    }

    /**
     * `watchDirectory(directoryPath)`: `target` is what `fs.stat` finds there. A path that
     * is not a directory is refused. A watched path's old handle is closed first; the new
     * handle goes in last, as `Map.set` of a fresh key does.
     */
    method WatchDirectory(path: string, target: Option<Node>) returns (ok: bool)
      requires Valid()
      modifies this
      ensures Valid()
      ensures ok <==> IsDirectory(target)
      ensures !ok ==> watchers == old(watchers) && isWatching == old(isWatching) && closed == old(closed)
      ensures ok ==> && |watchers| > 0
                     && watchers == Remove(old(watchers), path) + [Watch(path, watchers[|watchers| - 1].handle)]
                     && watchers[|watchers| - 1].handle !in closed
                     && forall w :: w in old(watchers) ==> w.handle != watchers[|watchers| - 1].handle
      ensures ok ==> closed == old(closed) + (if old(Get(watchers, path)).Some? then {old(Get(watchers, path)).value} else {})
      ensures ok ==> Count(Keys(watchers), path) == 1 && isWatching
    {
      if !IsDirectory(target) {
        return false;
      }
      if Get(watchers, path).Some? {
        var _ := UnwatchDirectory(path);
      }
      RemoveKeepsInvariant(old(watchers), path);
      var h := Handle(nextToken);
      AppendKeepsInvariant(watchers, Watch(path, h));
      nextToken := nextToken + 1;
      watchers := watchers + [Watch(path, h)];
      isWatching := true;
      KeyListedOnce(watchers, path);
      assert watchers[|watchers| - 1] == Watch(path, h);
      ok := true;
    }

    /**
     * `unwatchDirectory(directoryPath)`: close and forget the path's watcher if there is one;
     * `isWatching` drops once the registry is empty. Always answers true.
     */
    method UnwatchDirectory(path: string) returns (ok: bool)
      requires Valid()
      modifies this
      ensures Valid() && ok
      ensures watchers == Remove(old(watchers), path)
      ensures closed == old(closed) + (if old(Get(watchers, path)).Some? then {old(Get(watchers, path)).value} else {})
      ensures old(Get(watchers, path)).None? ==> watchers == old(watchers)
      ensures nextToken == old(nextToken)
    {
      var handle := Get(watchers, path);
      RemoveKeepsInvariant(watchers, path);
      if handle.Some? {
        closed := closed + {handle.value};
        watchers := Remove(watchers, path);
      }
      if |watchers| == 0 {
        isWatching := false;
      }
      ok := true;
    }

    /** `unwatchAll()`: unwatch every key of the registry, first to last. */
    method UnwatchAll() returns (ok: bool)
      requires Valid()
      modifies this
      ensures Valid() && ok
      ensures watchers == [] && !isWatching
      ensures closed == old(closed) + set w | w in old(watchers) :: w.handle
      ensures nextToken == old(nextToken)
    {
      var keys := Keys(watchers);
      ghost var all := watchers;
      for i := 0 to |keys|
        invariant Valid()
        invariant watchers == all[i..]
        invariant closed == old(closed) + set w | w in all[..i] :: w.handle
        invariant nextToken == old(nextToken)
      {
        assert watchers[0] == all[i];
        HeadKeyUnique(watchers);
        RemoveHead(watchers, keys[i]);
        assert Get(watchers, keys[i]) == Some(all[i].handle);
        var _ := UnwatchDirectory(keys[i]);
        assert all[..i + 1] == all[..i] + [all[i]];
        assert (set w | w in all[..i + 1] :: w.handle) == (set w | w in all[..i] :: w.handle) + {all[i].handle};
      }
      assert all[..|keys|] == all;
      ok := true;
    }

    /** `_handleFileAdd(filePath)`: upsert the file as `fs.stat` reports it; a failed stat is logged only. */
    method HandleFileAdd(path: string, stat: StatResult, now: int)
      requires db.Valid()
      modifies db
      ensures db.Valid()
      ensures db.State() == EventEffect(old(db.State()), Add(path, stat), now, db.foreignKeys)
    {
      if stat.Stats? {
        var fileInfo := EventFileInfo(path, stat.size, stat.mtime);
        var _ := db.AddFile(fileInfo, now);
      }
    }

    /** `_handleFileChange(filePath)`: the same upsert as an add. */
    method HandleFileChange(path: string, stat: StatResult, now: int)
      requires db.Valid()
      modifies db
      ensures db.Valid()
      ensures db.State() == EventEffect(old(db.State()), Change(path, stat), now, db.foreignKeys)
    {
      if stat.Stats? {
        var fileInfo := EventFileInfo(path, stat.size, stat.mtime);
        var _ := db.AddFile(fileInfo, now);
      }
    }

    /** `_handleFileDelete(filePath)`: delete the row holding the path, if any. */
    method HandleFileDelete(path: string)
      requires db.Valid()
      modifies db
      ensures db.Valid()
      ensures db.State() == EventEffect(old(db.State()), Unlink(path), 0, db.foreignKeys)
    {
      var file := db.GetFileByPath(path);
      if file.Some? {
        var _ := db.DeleteFile(file.value.id);
      }
    }

    /**
     * The routing `_registerWatcherEvents` installs: file events go to their handlers;
     * `addDir`, `unlinkDir` and `error` are only logged.
     */
    method HandleEvent(ev: WatchEvent, now: int)
      requires db.Valid()
      modifies db
      ensures db.Valid()
      ensures db.State() == EventEffect(old(db.State()), ev, now, db.foreignKeys)
    {
      match ev {
        case Add(path, stat) => HandleFileAdd(path, stat, now);
        case Change(path, stat) => HandleFileChange(path, stat, now);
        case Unlink(path) => HandleFileDelete(path);
        case AddDir(_) =>
        case UnlinkDir(_) =>
        case Error =>
      }
    }

    /** `indexDirectory(directoryPath)`: refuse a non-directory, otherwise traverse it. */
    method IndexDirectory(path: string, target: Option<Node>, now: int) returns (ok: bool)
      requires db.Valid()
      modifies db
      ensures db.Valid()
      ensures ok <==> IsDirectory(target)
      ensures !ok ==> db.State() == old(db.State())
      ensures ok ==> db.State() == AddFiles(old(db.State()), Traverse(path, target.value), now, db.foreignKeys)
    {
      if !IsDirectory(target) {
        return false;
      }
      TraverseDirectory(path, target.value, now);
      ok := true;
    }

    /**
     * `_traverseDirectory(directoryPath)`: list the directory and visit each entry in
     * listing order; a directory that cannot be listed is skipped.
     */
    method TraverseDirectory(path: string, node: Node, now: int)
      requires db.Valid()
      modifies db
      ensures db.Valid()
      ensures db.State() == AddFiles(old(db.State()), Traverse(path, node), now, db.foreignKeys)
      decreases node, 0
    {
      if !node.Dir? {
        return;
      }
      var entries := node.entries;
      ghost var d0 := db.State();
      for i := 0 to |entries|
        invariant db.Valid()
        invariant db.State() == AddFiles(d0, TraverseEntries(path, entries[..i]), now, db.foreignKeys)
      {
        AddFilesNextEntry(d0, path, entries, i, now, db.foreignKeys);
        VisitEntry(path, entries[i], now);
      }
      assert entries[..|entries|] == entries;
    }

    /**
     * One iteration of the loop of `_traverseDirectory`: recurse into a subdirectory,
     * upsert a regular file that `fs.stat` can read under its entry name, skip the rest.
     */
    method VisitEntry(path: string, entry: Entry, now: int)
      requires db.Valid()
      modifies db
      ensures db.Valid()
      ensures db.State() == AddFiles(old(db.State()), Visit(path, entry), now, db.foreignKeys)
      decreases entry.node, 1
    {
      var fullPath := Paths.Child(path, entry.name);
      match entry.node {
        case Dir(_) =>
          TraverseDirectory(fullPath, entry.node, now);
        case File(size, mtime) =>
          var fileInfo := FileInfo(fullPath, entry.name, Some(size), Some(mtime), None);
          var _ := db.AddFile(fileInfo, now);
          assert [fileInfo][1..] == [];
        case _ =>
      }
    }
  }
}
