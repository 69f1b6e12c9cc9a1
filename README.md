# Tagged Finder core, modelled in Dafny

Tagged Finder is a desktop file indexer. It keeps a SQLite catalog of files, watched
directories, tags, file–tag links and settings. A chokidar-based watcher keeps that catalog
in step with the disk, and a small translation helper serves the user interface. This project
models three parts of it:

- **The catalog** (`DatabaseManager`, src/database/index.js).
  - `Catalog` holds the five tables as sequences of rows. Each table has its UNIQUE keys and
    an AUTOINCREMENT counter that never reuses ids. `Catalog.Wf` states the table constraints.
    When `PRAGMA foreign_keys` is on, it also states referential integrity.
  - Every statement the manager runs is a function from tables to tables. An INSERT OR
    REPLACE is written as what SQLite does: it deletes the conflicting row, which cascades to
    its links when foreign keys are enforced, then inserts a new row under a fresh id.
  - `CatalogFacts` proves that every statement keeps `Wf` and has the effect its SQL promises.
  - `Database.DatabaseManager` is the class. Its fields are the tables, and each method
    changes them as its JavaScript namesake does. Each method is proved to reach the state
    the matching `Catalog` function describes.
- **The file watcher** (`FileWatcher`, src/main/fileWatcher.js).
  - The registry maps directory paths to opaque watcher handles, in `Map` insertion order.
    The model keeps the set of handles closed so far.
  - The event handlers write to the catalog class.
  - The recursive indexer walks a `FileSystem.Node` snapshot of the disk. What it upserts is
    `FileSystem.Traverse`. That is proved sound and complete against an independent
    "reachable regular file" relation, `FileSystem.Reaches`.
- **Message lookup** (`useI18n`, src/composables/useI18n.js).
  - `t` is a loop (`I18n.Translator.T`) proved equal to the recursive walk `I18n.Lookup`. The
    walk is characterised by the chains of objects it follows.
  - `setLocale` only accepts registered locales.

Helper modules:

- `Wrappers`: `Option`.
- `Seqs`: filter, find, insertion sort with its permutation and ordering proofs.
- `Strings`: `split`/`join` with both round trips, and code-point ordering for `ORDER BY name`.
- `Paths`: the three path operations the source uses:
  - `path.split('/').pop() || path`
  - `path.basename`
  - `path.join`

Two behaviours of the code are worth stating up front:

- `addFile` uses INSERT OR REPLACE. A re-added path therefore gets a fresh id, and its tag
  links are cascaded away when foreign keys are on (left pointing at nothing when they are
  off). `CatalogFacts.AddFileReplaces` and `CatalogFacts.ReAddLosesTags` state this.
- `_traverseDirectory` filters no names, passes no directory id and refreshes no directory
  stats or scan time. The model upserts every reachable regular file with a null directory,
  and `Watcher.AddFilesCovers` proves the directories are untouched.

## Model

| member | source | states |
|---|---|---|
| Catalog.EmptyDb | src/database/index.js:40-111 | freshly created tables are all empty (counters start at 1) |
| Catalog.FilesWf | src/database/index.js:41-51 | `files`: no row twice, ids are AUTOINCREMENT keys between 1 and the counter, `id` and `path` each identify a row (PRIMARY KEY, `path UNIQUE`) |
| Catalog.DirectoriesWf | src/database/index.js:88-97 | `directories`: ids between 1 and the counter, `id` and `path` each identify a row |
| Catalog.TagsWf | src/database/index.js:60-65 | `tags`: ids between 1 and the counter, `id` and `name` each identify a row |
| Catalog.LinksWf | src/database/index.js:72-80 | `file_tags`: ids between 1 and the counter, `id` identifies a row, and `UNIQUE(file_id, tag_id)` |
| Catalog.SettingsWf | src/database/index.js:104-108 | `settings`: ids between 1 and the counter, `id` and `key` each identify a row |
| Catalog.Integrity | src/database/index.js:50-79 | the FOREIGN KEY clauses: a file's non-null `directory_id` names a directory, and every link names an existing file and tag |
| Catalog.Wf | src/database/index.js:40-111 | the constraints `createTables` declares: all five tables well formed, plus referential integrity exactly when foreign keys are enforced |
| Catalog.StoredDirectory | src/database/index.js:167 | `file.directory_id \|\| null`: an absent or zero id is stored as NULL, any other id as given |
| Catalog.AddFileRejected | src/database/index.js:161-179 | the one way `addFile`'s insert fails here: foreign keys on and a non-null directory id naming no directory (the `catch` returns null) |
| Catalog.NewFileRow | src/database/index.js:167 | the row the REPLACE inserts: the next AUTOINCREMENT id, `size \|\| 0`, `mtime \|\| 0`, `directory_id \|\| null`, `created_at` and `updated_at` both the call's time |
| Catalog.ReplaceFile | src/database/index.js:163-167 | INSERT OR REPLACE: drop the row holding the path (cascading its links when foreign keys are on), append the new row, advance the counter; its effect is stated by `CatalogFacts.AddFileReplaces` |
| Catalog.AddFile | src/database/index.js:161-179 | `addFile`: the state is unchanged when the insert is rejected, otherwise the REPLACE followed by `updateDirectoryStats` when the stored directory id is non-null; see `CatalogFacts.AddFileWf`, `AddFileReplaces`, `AddFileRefreshesStats` |
| Catalog.CountIn | src/database/index.js:191-193 | `COUNT(*) ... WHERE directory_id = ?`: at most the table size, 0 when no row is filed there; equal to the number of such rows by `CatalogFacts.CountInIsCardinality` |
| Catalog.SizeIn | src/database/index.js:196-198 | `SUM(size) ... \|\| 0`: 0 when no row is filed under the directory |
| Catalog.UpdateDirectoryStats | src/database/index.js:188-203 | `updateDirectoryStats`: store the count and size sum of the directory's files in its row; see `CatalogFacts.UpdateDirectoryStatsEffect` |
| Catalog.DeleteFile | src/database/index.js:216-219 | `deleteFile`: remove the row with that id, cascading to its links when foreign keys are on; see `CatalogFacts.DeleteFileEffect` |
| Catalog.AddTag | src/database/index.js:222-227 | `addTag`: INSERT OR IGNORE keyed by name; see `CatalogFacts.AddTagEffect` |
| Catalog.DeleteTag | src/database/index.js:236-239 | `deleteTag`: remove the tag, cascading to its links when foreign keys are on; see `CatalogFacts.DeleteTagEffect` |
| Catalog.TagFileRejected | src/database/index.js:242-247 | the FOREIGN KEY failure of `tagFile`: a new pair whose file or tag is missing while foreign keys are on |
| Catalog.TagFile | src/database/index.js:242-247 | `tagFile`: INSERT OR IGNORE keyed by the pair; see `CatalogFacts.TagFileEffect` |
| Catalog.UntagFile | src/database/index.js:250-255 | `untagFile`: delete the pair's link; see `CatalogFacts.UntagFileEffect` |
| Catalog.UpdateDirectoryScanTime | src/database/index.js:280-289 | `updateDirectoryScanTime`: set `last_scan` of that row; see `CatalogFacts.UpdateDirectoryScanTimeEffect` |
| Catalog.ClearData | src/database/index.js:292-306 | `clearData`'s transaction: empty file_tags, tags and files and zero every directory's stats; see `CatalogFacts.ClearDataEffect` |
| Catalog.AddDirectory | src/database/index.js:310-315 | `addDirectory`'s INSERT OR IGNORE keyed by path, with the `split('/').pop() \|\| path` name and zero stats; see `CatalogFacts.AddDirectoryEffect` |
| Catalog.ToggleDirectoryMonitoring | src/database/index.js:329-342 | `toggleDirectoryMonitoring`: flip `is_watching` of an existing row, nothing for an unknown id; see `CatalogFacts.ToggleDirectoryMonitoringEffect` |
| Catalog.DefaultSettings | src/database/index.js:141-148 | the six key/value pairs of `addDefaultSettings`, in `Object.entries` order |
| Catalog.InsertSetting | src/database/index.js:151-153 | one `INSERT OR IGNORE INTO settings`; see `CatalogFacts.InsertSettingEffect` |
| Catalog.InsertSettings | src/database/index.js:150-154 | the loop's inserts, one per pair in order; see `CatalogFacts.InsertSettingsEffect` and `CatalogFacts.FreshDatabaseSettings` |
| Catalog.FindFileByPath | src/database/index.js:182-185 | `getFileByPath` returns a row with that path when one exists and nothing exactly when no row has it |
| Catalog.FindDirectory | src/database/index.js:345-348 | `getDirectoryById` returns the row with that id when one exists and nothing exactly when none has it |
| Catalog.FindFile | src/database/index.js:216-219 | lookup of a file row by id: found row has the id; absent iff no row has it |
| Catalog.FindTag | src/database/index.js:236-239 | lookup of a tag row by id: found row has the id; absent iff no row has it |
| Catalog.FindTagByName | src/database/index.js:222-227 | the UNIQUE(name) probe of INSERT OR IGNORE INTO tags: found row has the name; absent iff no row has it |
| Catalog.FindLink | src/database/index.js:242-247 | the UNIQUE(file_id, tag_id) probe: found link joins that pair; absent iff no link does |
| Catalog.FindSetting | src/database/index.js:150-154 | the UNIQUE(key) probe of the settings insert |
| Catalog.FindDirectoryByPath | src/database/index.js:310-319 | the UNIQUE(path) probe and `SELECT id FROM directories WHERE path = ?` |
| Catalog.WithoutPath | src/database/index.js:164-167 | the rows INSERT OR REPLACE keeps: exactly those with another path |
| Catalog.WithoutFile | src/database/index.js:216-219 | DELETE FROM files WHERE id = ?: exactly the rows with another id remain, and the count removed is the number of rows with that id |
| Catalog.WithoutTag | src/database/index.js:236-239 | DELETE FROM tags WHERE id = ?: exactly the other tags remain; removed count is the number with that id |
| Catalog.LinksWithoutFiles | src/database/index.js:78 | ON DELETE CASCADE from files: exactly the links whose file is not among the deleted ids remain |
| Catalog.LinksWithoutTag | src/database/index.js:79 | ON DELETE CASCADE from tags: exactly the links to other tags remain |
| Catalog.LinksWithoutPair | src/database/index.js:250-255 | `untagFile`'s DELETE: exactly the links of other pairs remain; removed count is the number of links of that pair |
| Catalog.FileIdsWithPath | src/database/index.js:164-167 | the ids INSERT OR REPLACE deletes are exactly those of rows holding the path |
| Catalog.WithStats | src/database/index.js:201-203 | the UPDATE of `updateDirectoryStats` keeps every row's id and path in place |
| Catalog.WithLastScan | src/database/index.js:283-285 | the UPDATE of `updateDirectoryScanTime` keeps every row's id and path |
| Catalog.WithWatchingToggled | src/database/index.js:336-339 | the UPDATE of `toggleDirectoryMonitoring` keeps every row's id and path |
| Catalog.WithStatsCleared | src/database/index.js:299 | `UPDATE directories SET files_count = 0, total_size = 0` keeps every row's id and path |
| Catalog.GetAllFiles | src/database/index.js:210-213 | `getAllFiles` returns every file row (a permutation of the table) ordered by name |
| Catalog.GetAllTags | src/database/index.js:230-233 | `getAllTags` returns every tag (a permutation) ordered by name |
| Catalog.GetAllDirectories | src/database/index.js:323-326 | `getAllDirectories` returns every directory (a permutation) newest `created_at` first |
| Catalog.FilesTagged | src/database/index.js:259-262 | the JOIN of files with file_tags on a tag: exactly the files linked to it |
| Catalog.TagsOfFile | src/database/index.js:271-273 | the JOIN of tags with file_tags on a file: exactly the tags linked to it |
| Catalog.GetFilesByTag | src/database/index.js:258-266 | `getFilesByTag` returns exactly the files some link ties to the tag, each once, ordered by name |
| Catalog.GetFileTags | src/database/index.js:269-277 | `getFileTags` returns exactly the tags some link ties to the file, each once, ordered by name |
| Catalog.ByFileName | src/database/index.js:211 | `ORDER BY name` on files: compare names with `Strings.LexLe`; `ByFileNameIsPreorder` shows it is total and transitive |
| Catalog.ByTagName | src/database/index.js:231 | `ORDER BY name` on tags, with the same collation |
| Catalog.NewestFirst | src/database/index.js:324 | `ORDER BY created_at DESC`: a row may precede another when its `created_at` is not smaller |
| Catalog.ByFileNameIsPreorder | src/database/index.js:211 | ORDER BY name on files is total and transitive |
| Catalog.ByTagNameIsPreorder | src/database/index.js:231 | ORDER BY name on tags is total and transitive |
| CatalogFacts.SameKeysWf | src/database/index.js:88-97 | rewriting directory rows in place keeps UNIQUE(path), the ids and every id lookup |
| CatalogFacts.DirectoriesRewrittenWf | src/database/index.js:88-97 | a statement that only rewrites directory rows in place keeps all constraints |
| CatalogFacts.CountInIsCardinality | src/database/index.js:191-193 | `COUNT(*) WHERE directory_id = ?` equals the number of distinct rows filed under the directory |
| CatalogFacts.UpdateDirectoryStatsEffect | src/database/index.js:188-203 | `updateDirectoryStats` keeps the constraints and sets only the row with that id: count of its files, sum of their sizes (0 when none) |
| CatalogFacts.UpdateDirectoryStatsIdempotent | src/database/index.js:188-203 | recomputing the stats twice equals recomputing them once |
| CatalogFacts.ReplaceFileWf | src/database/index.js:163-167 | the REPLACE keeps UNIQUE(path), fresh AUTOINCREMENT ids and, with foreign keys on, integrity |
| CatalogFacts.AddFileWf | src/database/index.js:161-179 | `addFile` keeps every table constraint |
| CatalogFacts.AddFileReplaces | src/database/index.js:161-167 | re-adding a path leaves exactly one row with it, carrying the new name/size/mtime/directory, `created_at` and `updated_at` both stamped with the call's `now`, and the id the AUTOINCREMENT counter holds (above every current row's id), after which the counter advances; other paths keep their rows; the old row's links are dropped with foreign keys on and left in place otherwise |
| CatalogFacts.ReAddLosesTags | src/database/index.js:161-167 | after re-adding a tagged path its old id names no row; with foreign keys on the old links are gone and the new row has no tags, with them off the links stay, orphaned |
| CatalogFacts.AddFileWithoutDirectory | src/database/index.js:167-172 | an absent or zero directory id is stored as null, is never refused and leaves the directories untouched |
| CatalogFacts.AddFileRefreshesStats | src/database/index.js:169-172 | a file with a directory id leaves that directory's count and size equal to those of the table after the REPLACE; every other directory row is one the database already had, and the files are exactly those the REPLACE left |
| CatalogFacts.DeleteFileWf | src/database/index.js:216-219 | `deleteFile` keeps the constraints (the cascade removes the file's links when enforced) |
| CatalogFacts.DeleteFileEffect | src/database/index.js:216-219 | after `deleteFile` no row has the id and `getFileByPath` of the deleted row's path finds nothing; every other row stays, one change is reported iff the row existed, links go only under foreign keys |
| CatalogFacts.AddTagWf | src/database/index.js:222-227 | `addTag` keeps the constraints |
| CatalogFacts.AddTagEffect | src/database/index.js:222-227 | after `addTag` the name exists; an existing tag keeps id and colour and nothing changes; a new tag gets the next id and the given colour |
| CatalogFacts.AddTagIdempotent | src/database/index.js:222-227 | adding a tag name twice equals adding it once, whatever the second colour |
| CatalogFacts.DeleteTagEffect | src/database/index.js:236-239 | `deleteTag` keeps the constraints, removes only that tag and no file, and removes its links exactly when foreign keys are on |
| CatalogFacts.TagFileWf | src/database/index.js:242-247 | `tagFile` keeps UNIQUE(file_id, tag_id) and, with foreign keys on, integrity |
| CatalogFacts.TagFileEffect | src/database/index.js:242-247 | after `tagFile` the pair is linked unless the foreign keys refused it; an existing pair or a refusal changes nothing; tagging twice equals tagging once |
| CatalogFacts.UntagAfterTag | src/database/index.js:242-255 | untagging a pair right after tagging it anew restores the links |
| CatalogFacts.UntagFileEffect | src/database/index.js:250-255 | `untagFile` removes that pair's link and no other, reporting one change iff it existed |
| CatalogFacts.AddDirectoryWf | src/database/index.js:310-319 | `addDirectory` keeps the constraints |
| CatalogFacts.AddDirectoryEffect | src/database/index.js:310-319 | afterwards the path has a row; a known path keeps its row (id and `is_watching`); a new one gets the next id, the name from `split('/').pop() \|\| path` and zero stats; adding twice equals adding once |
| CatalogFacts.ToggleDirectoryMonitoringEffect | src/database/index.js:329-342 | flips `is_watching` of that row only; an unknown id changes nothing |
| CatalogFacts.ToggleTwice | src/database/index.js:329-342 | toggling twice restores the tables |
| CatalogFacts.ToggledTwice | src/database/index.js:335-339 | flipping the flag of the same row twice restores every row, and the row is still found after the first flip |
| CatalogFacts.UpdateDirectoryScanTimeEffect | src/database/index.js:280-289 | stamps `last_scan` of that row only and keeps the constraints |
| CatalogFacts.ClearDataEffect | src/database/index.js:292-306 | `clearData` empties file_tags, tags and files, zeroes every directory's stats, keeps directory keys and flags and the settings |
| CatalogFacts.InsertSettingEffect | src/database/index.js:150-154 | one settings insert never overwrites an existing key and leaves a row for its key |
| CatalogFacts.InsertSettingsEffect | src/database/index.js:139-158 | the default-settings loop keeps the constraints and every existing row, leaves a row for each default key, and every row it adds holds the key and value of one of the pairs |
| CatalogFacts.InsertSettingsSnoc | src/database/index.js:150-154 | one more loop iteration is one more insert |
| CatalogFacts.NewSettingRows | src/database/index.js:150-154 | the rows a run of inserts of new keys appends: one per pair, same key and value, ids counting up |
| CatalogFacts.InsertNewSetting | src/database/index.js:150-154 | `INSERT OR IGNORE` of a key no row holds appends its row under the next id and bumps the counter by one |
| CatalogFacts.InsertDistinctStep | src/database/index.js:150-154 | a new first key puts its row in front of the rows the rest of the run appends |
| CatalogFacts.InsertDistinctSettings | src/database/index.js:150-154 | inserting distinct keys none of which is present appends exactly one row per pair, in order, holding its value |
| CatalogFacts.DefaultKeysDiffer | src/database/index.js:141-148 | the six default keys are pairwise different |
| CatalogFacts.FreshDatabaseSettings | src/database/index.js:139-158 | on a new database file the settings table is exactly the six defaults, each with its value, in `Object.entries` order under ids 1 to 6 |
| Database.DatabaseManager.constructor | src/database/index.js:20-29 | `init` on a new file: empty tables, then the six defaults in order, all constraints holding |
| Database.DatabaseManager.AddDefaultSettings | src/database/index.js:139-158 | the loop performs INSERT OR IGNORE of each default in order and keeps the constraints |
| Database.DatabaseManager.InsertIgnoreSetting | src/database/index.js:151-153 | one loop iteration performs one settings INSERT OR IGNORE |
| Database.DatabaseManager.AddFile | src/database/index.js:161-179 | performs the REPLACE and the conditional stats refresh; returns `{changes: 1, lastInsertRowid: new id}`, or null when the insert fails on a missing directory |
| Database.DatabaseManager.GetFileByPath | src/database/index.js:182-185 | the row with that path, absent iff none |
| Database.DatabaseManager.UpdateDirectoryStats | src/database/index.js:188-207 | counts and sums the directory's files and stores both, keeping the constraints |
| Database.DatabaseManager.GetAllFiles | src/database/index.js:210-213 | all files, ordered by name |
| Database.DatabaseManager.DeleteFile | src/database/index.js:216-219 | deletes by id (cascading when enforced); `changes` is 1 iff the row existed |
| Database.DatabaseManager.AddTag | src/database/index.js:222-227 | INSERT OR IGNORE with colour defaulting to `#007AFF`; `changes` is 0 iff the name existed |
| Database.DatabaseManager.GetAllTags | src/database/index.js:230-233 | all tags, ordered by name |
| Database.DatabaseManager.DeleteTag | src/database/index.js:236-239 | deletes by id (cascading when enforced); `changes` is 1 iff the tag existed |
| Database.DatabaseManager.TagFile | src/database/index.js:242-247 | INSERT OR IGNORE of the pair; throws (None) exactly when foreign keys refuse a new link; `changes` is 0 iff the pair existed |
| Database.DatabaseManager.UntagFile | src/database/index.js:250-255 | deletes that pair's link; `changes` is 1 iff it existed |
| Database.DatabaseManager.GetFilesByTag | src/database/index.js:258-266 | exactly the files linked to the tag, each once, ordered by name |
| Database.DatabaseManager.GetFileTags | src/database/index.js:269-277 | exactly the tags linked to the file, each once, ordered by name |
| Database.DatabaseManager.UpdateDirectoryScanTime | src/database/index.js:280-289 | stamps `last_scan` |
| Database.DatabaseManager.ClearData | src/database/index.js:292-306 | runs the four statements of the transaction and returns true |
| Database.DatabaseManager.AddDirectory | src/database/index.js:310-320 | INSERT OR IGNORE, then returns the id of the row holding the path, which is the old id when the path was known |
| Database.DatabaseManager.GetAllDirectories | src/database/index.js:323-326 | all directories, newest first |
| Database.DatabaseManager.ToggleDirectoryMonitoring | src/database/index.js:329-342 | flips the flag; null exactly for an unknown id, otherwise one change |
| Database.DatabaseManager.GetDirectoryById | src/database/index.js:345-348 | the row with that id, absent iff none |
| Paths.DirectoryName | src/database/index.js:311 | the text after the last '/', or the whole path when that text is empty (no '/' or a trailing '/') |
| Paths.LastPieceIsSuffix | src/database/index.js:311 | `split('/').pop()` is a '/'-free suffix of the path, preceded by '/' unless it is the whole path |
| Paths.Basename | src/main/fileWatcher.js:106 | `path.basename`: the '/'-free last segment after trailing slashes are dropped, empty exactly for an all-'/' path |
| Paths.Child | src/main/fileWatcher.js:192 | `path.join(directoryPath, entry.name)` for an entry name: the directory, one '/', the name (no normalisation, see "## Left out") |
| Strings.Split | src/composables/useI18n.js:14 | `split` gives at least one part and no part holds the separator |
| Strings.JoinSplit | src/composables/useI18n.js:14 | joining the parts of a split gives the string back |
| Strings.SplitJoin | src/composables/useI18n.js:14 | splitting a join of separator-free parts gives the parts back |
| Strings.LexLe | src/database/index.js:211 | SQLite's BINARY collation for `ORDER BY name`: code-point lexicographic order, the empty string first and a prefix before its extensions; `LexTotal` and `LexTransitive` show it is a total preorder |
| Strings.LexTotal | src/database/index.js:211 | name order compares any two names |
| Strings.LexTransitive | src/database/index.js:211 | name order is transitive |
| FileSystem.TraverseEntriesMembers | src/main/fileWatcher.js:191-214 | the loop's upserts are exactly those of its iterations |
| FileSystem.TraverseSound | src/main/fileWatcher.js:187-218 | every upsert of the traversal is a reachable regular file at the joined path, named by its entry, with its size and mtime and no directory id |
| FileSystem.TraverseComplete | src/main/fileWatcher.js:187-218 | every regular file reachable through listable directories is upserted, whatever its name and whatever else fails to read |
| FileSystem.Traverse | src/main/fileWatcher.js:187-218 | the `addFile` calls of `_traverseDirectory`: those of its loop for a listable directory, none when `readdir` fails; characterised by `FileSystem.TraverseSound` and `FileSystem.TraverseComplete` |
| FileSystem.TraverseEntries | src/main/fileWatcher.js:191-214 | the `for (const entry of entries)` loop: each entry's calls in listing order; see `FileSystem.TraverseEntriesMembers` |
| FileSystem.Visit | src/main/fileWatcher.js:192-213 | one iteration: recurse into a directory entry, one upsert named by the entry for a file `fs.stat` can read, nothing otherwise |
| FileSystem.IsDirectory | src/main/fileWatcher.js:16-17 | `fs.stat(p)` succeeds and `stats.isDirectory()` holds: the path reaches a directory, listable or not; an unreachable path is not one |
| Watcher.AddFilesAppend | src/main/fileWatcher.js:191-214 | upserting two runs in turn is upserting their concatenation |
| Watcher.AddFileKeepsPaths | src/main/fileWatcher.js:209 | one upsert without a directory keeps every known path, adds its own and leaves the directories alone |
| Watcher.AddFilesCovers | src/main/fileWatcher.js:187-218 | a run of such upserts keeps every earlier path, adds all of its own and never touches the directories |
| Watcher.AddFilesNextEntry | src/main/fileWatcher.js:191-214 | upserting the files of one more listing entry continues from the files of the entries before it |
| Watcher.AddFiles | src/main/fileWatcher.js:191-214 | the catalog after `addFile` is applied to each record in turn; see `Watcher.AddFilesAppend` and `Watcher.AddFilesCovers` |
| Watcher.EventEffect | src/main/fileWatcher.js:89-165 | the catalog after the handler an event is routed to: upsert on add/change with a successful stat, delete-by-path on unlink, nothing otherwise; see `Watcher.EventEffectSpec` |
| Watcher.TraverseWithoutDirectory | src/main/fileWatcher.js:201-206 | the indexer never passes a directory id |
| Watcher.IndexedFilesPresent | src/main/fileWatcher.js:168-218 | after indexing, every reachable regular file has a row under its joined path and no directory's stats changed |
| Watcher.EventFileInfo | src/main/fileWatcher.js:104-109 | the handler record carries the stat's size and mtime, a '/'-free basename and no directory id |
| Watcher.EventEffectSpec | src/main/fileWatcher.js:101-165 | a readable add/change upserts the path's row without touching directories; a failed stat, addDir, unlinkDir and error change nothing; after unlink no row has the path; everything keeps the constraints |
| Watcher.UpsertEffect | src/main/fileWatcher.js:104-111 | the add/change upsert keeps the constraints, leaves exactly the new row under the path and the directories untouched |
| Watcher.UnlinkEffect | src/main/fileWatcher.js:139-150 | the unlink handler keeps the constraints, removes exactly the row with the path (every other row stays), leaves the directories and their stats as they were, and changes nothing for a path without a row |
| Watcher.Keys | src/main/fileWatcher.js:84-86 | the watched keys in registry order, one per entry |
| Watcher.Remove | src/main/fileWatcher.js:60 | `Map.delete`: exactly the entries with other keys remain |
| Watcher.Get | src/main/fileWatcher.js:57 | `Map.get`: a found handle is registered under the key; absent iff no entry has the key |
| Watcher.KeyListedOnce | src/main/fileWatcher.js:84-86 | a watched key is listed exactly once, an unwatched one not at all |
| Watcher.RemoveHead | src/main/fileWatcher.js:77-78 | deleting the key being visited first leaves the remaining keys in order |
| Watcher.HeadKeyUnique | src/main/fileWatcher.js:77-78 | the first key is not repeated later |
| Watcher.RemoveKeepsInvariant | src/main/fileWatcher.js:57-60 | deleting a key keeps keys and handles unique and unregisters its handle |
| Watcher.AppendKeepsInvariant | src/main/fileWatcher.js:43 | registering a new key with a new handle keeps keys and handles unique |
| Watcher.FileWatcher.Valid | src/main/fileWatcher.js:43-44 | the registry invariant: each path registered once (Map keys), each handle in one entry, every registered handle handed out and still open, every closed handle handed out, and `isWatching` exactly when the Map is non-empty (set at lines 43-44, cleared at 64-66) |
| Watcher.FileWatcher.constructor | src/main/fileWatcher.js:7-10 | empty registry, not watching |
| Watcher.FileWatcher.GetWatchedDirectories | src/main/fileWatcher.js:84-86 | the keys, each once, exactly the watched paths |
| Watcher.FileWatcher.WatchDirectory | src/main/fileWatcher.js:13-52 | false and no change unless `fs.stat` finds a directory; otherwise the old handle (if any) is closed, a fresh open handle is appended, the key is listed once and `isWatching` holds |
| Watcher.FileWatcher.UnwatchDirectory | src/main/fileWatcher.js:55-73 | always true; removes only that key, closing its handle; an unknown key changes nothing; `isWatching` stays equal to non-emptiness |
| Watcher.FileWatcher.UnwatchAll | src/main/fileWatcher.js:76-81 | returns true with the registry empty, `isWatching` false, exactly the old handles added to the closed ones, and no handle created |
| Watcher.FileWatcher.HandleFileAdd | src/main/fileWatcher.js:101-117 | upserts `{path, basename, size, mtime}` when stat succeeds, nothing otherwise |
| Watcher.FileWatcher.HandleFileChange | src/main/fileWatcher.js:120-136 | the same upsert as an add |
| Watcher.FileWatcher.HandleFileDelete | src/main/fileWatcher.js:139-150 | deletes the row holding the path if there is one |
| Watcher.FileWatcher.HandleEvent | src/main/fileWatcher.js:89-98 | routes each event to its handler; addDir, unlinkDir and error leave the catalog alone |
| Watcher.FileWatcher.IndexDirectory | src/main/fileWatcher.js:168-184 | false and no change for a non-directory; otherwise true after the traversal's upserts |
| Watcher.FileWatcher.TraverseDirectory | src/main/fileWatcher.js:187-218 | performs exactly the upserts of `FileSystem.Traverse`, in order, recursing into subdirectories and skipping what cannot be read |
| Watcher.FileWatcher.VisitEntry | src/main/fileWatcher.js:195-213 | one loop iteration performs exactly the upserts `FileSystem.Visit` lists for the entry |
| I18n.LookupSound | src/composables/useI18n.js:17-25 | a successful walk follows a chain of objects, each holding the next key, to the value returned |
| I18n.Lookup | src/composables/useI18n.js:17-25 | the walk of `t`'s loop: follow each key through objects, absent at the first missing key or non-object; characterised by `I18n.LookupSound` and `I18n.LookupComplete` |
| I18n.Translate | src/composables/useI18n.js:13-26 | `t(path)`: split at '.', walk, and return the value reached or the path itself; see `I18n.MissingKeyGivesPath` and `I18n.TranslateJoined` |
| I18n.LookupComplete | src/composables/useI18n.js:17-25 | every such chain is followed to its end (including one ending at a subtree) |
| I18n.LookupAppend | src/composables/useI18n.js:17-23 | walking `a + b` is walking `a`, then `b` from where it ended |
| I18n.MissingKeyGivesPath | src/composables/useI18n.js:18-22 | a missing key at any depth, or a string met before the last key, makes `t` return its input unchanged |
| I18n.TranslateJoined | src/composables/useI18n.js:13-26 | for dot-free keys, `t` of their dotted join returns the value reached, string or subtree |
| I18n.Translator.constructor | src/composables/useI18n.js:5-10 | the two registered locales, current locale 'zh-CN' |
| I18n.Translator.T | src/composables/useI18n.js:13-26 | the loop returns the value the walk reaches in the current locale's table, or the key itself |
| I18n.Translator.SetLocale | src/composables/useI18n.js:28-32 | takes a registered locale and ignores any other |

## Left out

- Connection lifecycle (`init` on an existing file, `close`, `getInstance`), `getDatabaseSize`, `backupDatabase` and the module-level `mkdirSync`: file-system and driver plumbing with no catalog logic. The constructor models `init` on a new database file only.
- The SQL engine itself. Statements are modelled by their effect on rows.
  - AUTOINCREMENT is a per-table counter. An INSERT OR IGNORE that is ignored does not advance it, and no claim is made about SQLite's exact id values beyond freshness.
  - Ties under ORDER BY are broken by a stable insertion sort. The contracts claim only ordering and permutation.
  - BINARY collation is taken as code-point order of the `char` sequence, and there is no UTF-8 byte encoding.
- Clocks. `Date.now()`, `strftime('%s','now')` and `Math.floor(Date.now() / 1000)` are one integer `now` per call. For the indexer, one `now` serves a whole traversal. The float `updated_at` (`Date.now() / 1000`) and the float `mtimeMs` are opaque integers. A new file row therefore gets equal `created_at` and `updated_at`; the source stores the first as the integer seconds of `strftime('%s','now')` and the second as the float `Date.now() / 1000`, which need not be equal.
- JavaScript value coercions beyond `undefined`/`0`: `file.size || 0` and `file.mtime || 0` are modelled for absent values only, not for `NaN` or `0`-like strings. `directory_id || null` is modelled for absent and `0`.
- Driver errors other than the FOREIGN KEY failures: `NOT NULL` violations (a missing `path` or `name`), disk errors, and the `catch` arms that log them. `Database.DatabaseManager.ClearData` therefore always returns true. `Database.DatabaseManager.TagFile` reports the thrown FOREIGN KEY error as `None`.
- `Database.DatabaseManager.AddDirectory`: the `isWatching` argument is taken as a boolean. JavaScript truthiness of other values is not modelled.
- Chokidar itself: its options (`ignored` pattern, `awaitWriteFinish`, `followSymlinks`, `ignoreInitial` and its initial scan). Handles are opaque tokens created and closed. The events a handle delivers are inputs to `Watcher.FileWatcher.HandleEvent`.
- Asynchrony. `fs.stat` and `fs.readdir` results are parameters or a `FileSystem.Node` snapshot, so the model has no interleaving of handlers, events in flight after `unwatchDirectory`, or changes to the disk during a traversal.
- `FileSystem.IsDirectory`: `fs.stat` follows a symbolic link at the root, which a snapshot does not record. A root that is a link to a directory is not modelled.
- Path handling is POSIX only: '/' is the one separator in `Paths.Basename` and `Paths.Child`. Node's win32 `path.basename` and `path.join` also split at '\\' and are not modelled.
- `Paths.Child`: `path.join` normalisation (`..`, `.`, doubled or trailing separators) is not modelled. The child path is `dir + "/" + name`.
- Logging (`console.log`, `console.error`, `console.warn`): no effect on state.
- The locale files' contents. The two tables are constructor parameters.
- `I18n.Translator.SetLocale` and `I18n.Translator.T`: JavaScript's `in` and `messages[locale]` also see inherited prototype properties such as `toString`. The model treats both objects as plain maps.
- Members the tests call that src/database/index.js and src/main/fileWatcher.js do not define: `deleteDirectory` (tests/database.test.js:190), `watchFiles` and `ensureVirtualDirectory` (tests/reproduce_files_issue.test.js:99, 120), and a `FileWatcher(dbManager)` constructor (tests/fileWatcher.test.js:71; the source's constructor takes no argument). They are not part of this model. The test double's id-preserving `addFile` is not source behaviour either.
