/**
 * A snapshot of the filesystem as the watcher sees it through `fs.stat` and
 * `fs.readdir(..., { withFileTypes: true })`, and the list of files `_traverseDirectory`
 * (src/main/fileWatcher.js) hands to `addFile`, in the order it hands them over.
 */
module FileSystem {
  import opened Wrappers
  import opened Catalog
  import Paths

  datatype Node =
    | File(size: int, mtime: int)  // a regular file `fs.stat` can read (`mtime` is `mtimeMs`)
    | UnstatableFile               // listed as a regular file, but `fs.stat` on it fails
    | Dir(entries: seq<Entry>)     // a directory `fs.readdir` can list, in listing order
    | UnreadableDir                // a directory whose listing fails
    | Special                      // a symbolic link, socket, FIFO or device: neither isFile() nor isDirectory()

  datatype Entry = Entry(name: string, node: Node)

  /** What `fs.stat(path)` reports for a path; `None` is a path it cannot reach. */
  predicate IsDirectory(target: Option<Node>) {
    target.Some? && (target.value.Dir? || target.value.UnreadableDir?)
  }

  /** The `addFile` calls of `_traverseDirectory(path)` on `node`; a listing that fails yields none. */
  function Traverse(path: string, node: Node): seq<FileInfo>
    decreases node, 2
  {
    match node
    case Dir(entries) => TraverseEntries(path, entries)
    case _ => []
  }

  /** The `for (const entry of entries)` loop: each entry's calls, in listing order. */
  function TraverseEntries(path: string, entries: seq<Entry>): seq<FileInfo>
    decreases entries, 1, |entries|
  {
    if entries == [] then []
    else TraverseEntries(path, entries[..|entries| - 1]) + Visit(path, entries[|entries| - 1])
  }

  /** One loop iteration: recurse into a directory, upsert a file that `fs.stat` can read, skip the rest. */
  function Visit(path: string, e: Entry): seq<FileInfo>
    decreases e, 0
  {
    var full := Paths.Child(path, e.name);
    match e.node
    case Dir(_) => Traverse(full, e.node)
    case File(size, mtime) => [FileInfo(full, e.name, Some(size), Some(mtime), None)]
    case _ => []
  }

  /** `path.join` applied to each name in turn. */
  function Under(path: string, names: seq<string>): string
    decreases |names|
  {
    if names == [] then path else Under(Paths.Child(path, names[0]), names[1..])
  }

  /**
   * Independent description of what the indexer should find: `names` leads from `node`
   * through listable directories to a regular file with this size and mtime.
   */
  ghost predicate Reaches(node: Node, names: seq<string>, size: int, mtime: int)
    decreases node
  {
    && node.Dir?
    && |names| >= 1
    && exists e :: e in node.entries && e.name == names[0] &&
         if |names| == 1 then e.node == File(size, mtime)
         else Reaches(e.node, names[1..], size, mtime)
  }

  /** The calls of the loop are those of its iterations. */
  lemma {:induction false} TraverseEntriesMembers(path: string, entries: seq<Entry>, info: FileInfo)
    ensures info in TraverseEntries(path, entries) <==> exists e :: e in entries && info in Visit(path, e)
    decreases |entries|
  {
    if entries != [] {
      var init := entries[..|entries| - 1];
      var last := entries[|entries| - 1];
      TraverseEntriesMembers(path, init, info);
      assert entries == init + [last];
      if info in TraverseEntries(path, entries) && info !in Visit(path, last) {
        var e :| e in init && info in Visit(path, e);
        assert e in entries;
      }
      if exists e :: e in entries && info in Visit(path, e) {
        var e :| e in entries && info in Visit(path, e);
        if e != last {
          assert e in init;
        }
      }
    }
  }

  /** Every file the indexer upserts is a reachable regular file, named after its last entry, without a directory id. */
  lemma {:induction false} TraverseSound(path: string, node: Node, info: FileInfo)
    requires info in Traverse(path, node)
    ensures exists names: seq<string>, size: int, mtime: int ::
      && Reaches(node, names, size, mtime)
      && info == FileInfo(Under(path, names), names[|names| - 1], Some(size), Some(mtime), None)
    decreases node
  {
    var entries := node.entries;
    TraverseEntriesMembers(path, entries, info);
    var e :| e in entries && info in Visit(path, e);
    var full := Paths.Child(path, e.name);
    match e.node {
      case File(size, mtime) =>
        var names := [e.name];
        assert Under(path, names) == full;
        assert Reaches(node, names, size, mtime);
      case Dir(_) =>
        TraverseSound(full, e.node, info);
        var rest: seq<string>, size: int, mtime: int :|
          && Reaches(e.node, rest, size, mtime)
          && info == FileInfo(Under(full, rest), rest[|rest| - 1], Some(size), Some(mtime), None);
        var names := [e.name] + rest;
        assert names[1..] == rest;
        assert Under(path, names) == Under(full, rest);
        assert Reaches(node, names, size, mtime);
    }
  }

  /**
   * Every reachable regular file is upserted, whatever its name (no filtering) and however
   * many siblings or other subtrees cannot be read.
   */
  lemma {:induction false} TraverseComplete(path: string, node: Node, names: seq<string>, size: int, mtime: int)
    requires Reaches(node, names, size, mtime)
    ensures FileInfo(Under(path, names), names[|names| - 1], Some(size), Some(mtime), None) in Traverse(path, node)
    decreases node
  {
    var info := FileInfo(Under(path, names), names[|names| - 1], Some(size), Some(mtime), None);
    var e :| e in node.entries && e.name == names[0] &&
      if |names| == 1 then e.node == File(size, mtime) else Reaches(e.node, names[1..], size, mtime);
    var full := Paths.Child(path, e.name);
    if |names| == 1 {
      assert Under(path, names) == full;
      assert info in Visit(path, e);
    } else {
      TraverseComplete(full, e.node, names[1..], size, mtime);
      assert Under(path, names) == Under(full, names[1..]);
      assert names[1..][|names[1..]| - 1] == names[|names| - 1];
      assert info in Visit(path, e);
    }
    TraverseEntriesMembers(path, node.entries, info);
  }
}
