# The reference store of jit, in Dafny

jit is a small Git clone written in Ruby. Its `Refs` class (`lib/refs.rb`) keeps the repository's references as small text files under the `.git` directory:

- `HEAD` and `ORIG_HEAD` sit at the store root.
- Local branches sit under `refs/heads/`.
- Remote-tracking branches sit under `refs/remotes/`.

A file holds either an object id (a *direct* reference) or a line `ref: <name>` (a *symbolic* reference). `Refs` resolves chains of symbolic references. It looks names up under a fixed list of prefixes, and writes every file through a lock marker that is committed by rename. It also creates and deletes branches, tries to prune the directories a deleted branch leaves empty (as written this removes nothing for a nested branch; see Findings), and lists references, including the object-id-to-names table that `log --decorate` uses.

The model is split into six files:

- `paths.dfy` (module `Paths`): store paths as sequences of components. It also holds the split and join round trip of slash-separated names.
- `content.dfy` (module `RefContent`): the text of a reference file. This covers Ruby's `strip`, the `/^ref: (.+)$/` match, and what `write_lockfile` writes. It proves that both kinds of content parse back after being written.
- `filesystem.dfy` (module `FileSystem`): the store directory as an in-memory tree, in class `Disk`. Its fields are the files, the directories and the held lock markers. Class `Lockfile` models the lock protocol `Refs` relies on: exclusive acquire, buffered write, commit by rename, and rollback.
- `resolve.dfy` (module `RefRead`): the read side as pure functions over the files. This covers `read_oid_or_symref`, `read_symref`, `read_ref`, `path_for_name`, `current_ref`, `short_name`, `long_name`, `list_refs` and the listings built on it, and the SymRef name tests.
- `refs.dfy` (module `RefStore`): the write side.
  - Class `Refs` has one method per write operation of the source. Each method is proved against a pure description of its whole effect: `RefFileWritten` for `update_ref_file`, `SymrefUpdated`/`SymrefWalk` for `update_symref`, `DeleteOutcome`/`Pruned` for `delete_branch`, and `Reverse` for `reverse_refs`.
  - Lemmas beside these descriptions state the properties the store promises.
- `wrappers.dfy`: `Option`, `Result` and `Outcome`, plus the errors the store raises.

Reading follows the source, except as listed under "Left out":

- A name is tried under the store root, then `refs/`, `refs/heads/` and `refs/remotes/`. The first existing file wins.
- Symbolic content is followed until a direct value or a missing file.
- A symbolic cycle makes the Ruby code recurse until the stack overflows. The model reports that case as `SymrefLoop`.

Every write goes through a `Lockfile`. In `update_ref_file`, which `update_ref`, `set_head`, `create_branch` and `compare_and_swap` use:

- A missing directory is created, and the lock is tried once more.
- A compare-and-swap guard runs while the lock is held.
- The value is committed by rename. Deleting a reference unlinks its file instead.
- The lock is released on every path except one: a `SystemStackError` from the guard. Ruby's `rescue => error` does not catch that error, so the model leaves the marker in place on a symbolic cycle.

`update_symref` locks each hop in turn, writes through to the last hop (the terminal), and reports that hop's previous value. It differs from `update_ref_file` in two ways:

- It never creates a directory and never retries. A hop whose directory is missing reports MissingParent.
- It has no rescue around the terminal's commit. When that commit fails (onto a directory), the terminal's marker stays held.

`delete_branch` also takes its lock without creating a directory: a missing `refs/heads` reports MissingParent.

## Model

| member | source | states |
|---|---|---|
| Paths.SplitJoin | lib/refs.rb:183-184 | Joining a valid path's components with '/' and splitting the text again gives the path back. So the name `list_refs` reports for a file leads back to that file. |
| RefContent.Strip | lib/refs.rb:211 | The stripped text neither starts nor ends with a blank character. |
| RefContent.StripTrims | lib/refs.rb:211 | The stripped text is exactly the stretch of the input after its leading blanks, and everything dropped after that stretch is blank. |
| RefContent.SymrefTarget | lib/refs.rb:41 | A captured target is non-empty and a single line. For one-line data, a capture exists exactly when the data starts with "ref: " followed by at least one character, and the capture is everything after "ref: ". |
| RefContent.Parse | lib/refs.rb:210-214 | Direct content is the stripped text. Symbolic content has a non-empty, single-line target. When the stripped text is one line, it is symbolic, with the text after "ref: " as target, exactly when it starts with "ref: " and has more after it; otherwise it is direct. |
| RefContent.Serialize | lib/refs.rb:267-271 | The written text is the value followed by exactly one line feed. |
| RefContent.SymrefText | lib/refs.rb:67-68 | The symbolic form is "ref: " followed by the target, unchanged. |
| RefContent.StripSerialized | lib/refs.rb:211 | Strip removes the line feed that write_lockfile adds and nothing else, for a line without blanks at its ends. |
| RefContent.ParseSerializedOid | lib/refs.rb:267-271 | Round trip: a plain object id, once written, is read back as that direct value. |
| RefContent.ParseSerializedSymref | lib/refs.rb:267-271 | Round trip: "ref: target", once written, is read back as a symbolic reference to that target. |
| FileSystem.Disk.Unlink | lib/refs.rb:237 | The path is no longer a file. Directories and locks are unchanged. |
| FileSystem.Disk.Rmdir | lib/refs.rb:203-205 | The directory is removed exactly when it has no file, subdirectory or lock marker in it. Otherwise the call reports ENOTEMPTY. |
| FileSystem.Disk.MkdirP | lib/refs.rb:242 | A file in the way fails with NotADirectory and changes nothing. Otherwise the directory and all its ancestors exist afterwards. |
| FileSystem.Lockfile.HoldForUpdate | lib/refs.rb:231 | An existing marker gives LockDenied, a missing directory gives MissingParent, and otherwise an empty marker is created and held. Holding it already is a no-op. |
| FileSystem.Lockfile.Write | lib/refs.rb:268-269 | The text is appended to the marker's buffer. Files are unchanged. |
| FileSystem.Lockfile.Commit | lib/refs.rb:270 | Onto a directory, fails with IsDirectory and keeps the marker. Otherwise the path holds exactly the buffer and the lock is released. |
| FileSystem.Lockfile.Rollback | lib/refs.rb:238 | The marker is discarded if this object holds it, and the call is a no-op otherwise. Files are never touched. |
| RefRead.ReadOidOrSymref | lib/refs.rb:210-217 | There is content exactly when a file exists at the path. A missing file reads as nil. |
| RefRead.ReadSymref | lib/refs.rb:219-226 | The only error resolution reports is SymrefLoop. |
| RefRead.ChainEndResolves | lib/refs.rb:219-226 | When the chain of symbolic hops from a path comes to rest at a path that is not symbolic, read_symref gives that path's direct value, or nil when it has no file. |
| RefRead.ReadSymrefFailsOnlyOnCycle | lib/refs.rb:219-226 | read_symref fails exactly when the chain of hops from the path never comes to rest. |
| RefRead.ResolvedChainEnds | lib/refs.rb:219-226 | A chain that read_symref resolves comes to rest after some number of hops. |
| RefRead.ReadHead | lib/refs.rb:54-56 | read_head resolves the file HEAD at the store root. When that file exists this is exactly read_ref("HEAD"); with no HEAD file it is nil. |
| RefRead.FindPrefix | lib/refs.rb:193-196 | The result is the first prefix, in list order, under which the name is a file, and no prefix before it has one. None exactly when no prefix has one. |
| RefRead.PathForName | lib/refs.rb:192-197 | The name is tried under the root, refs/, refs/heads/ and refs/remotes/, in that order. The first existing file wins, and None means none exists. |
| RefRead.ReadRef | lib/refs.rb:74-77 | The only error read_ref reports is SymrefLoop. |
| RefRead.ReadRefFailsOnlyOnCycle | lib/refs.rb:74-77 | read_ref fails only for a name whose located file starts a chain that never comes to rest. |
| RefRead.CurrentRef | lib/refs.rb:124-131 | The reported name's own content is never symbolic. The only error is SymrefLoop. |
| RefRead.CurrentRefIsChainEnd | lib/refs.rb:124-131 | When the chain from the source comes to rest, current_ref succeeds and names the path where it comes to rest: the first one that is not symbolic. |
| RefRead.CurrentRefFailsOnlyOnCycle | lib/refs.rb:124-131 | current_ref fails only when the chain from the source never comes to rest. |
| RefRead.ShortName | lib/refs.rb:156-164 | The short name drops the first two components (refs/remotes or refs/heads) exactly when the name's directory lies under refs/remotes or refs/heads, and is otherwise the whole name. |
| RefRead.LongName | lib/refs.rb:166-172 | The result names the file path_for_name located, relative to the store root. The call fails, with the upstream-missing InvalidBranch, exactly when no candidate of path_for_name exists. |
| RefRead.RefsUnder | lib/refs.rb:176-186 | Exactly the files at any depth below the directory. |
| RefRead.ListRefs | lib/refs.rb:176-190 | Every file below the directory is listed under its full name. |
| RefRead.ListAllRefs | lib/refs.rb:133-135 | HEAD is always listed, together with every reference under refs/, and nothing else is. |
| RefRead.ListBranches | lib/refs.rb:137-139 | Every file under refs/heads is listed under its full name, and every listed name satisfies branch? and is neither HEAD nor a remote. |
| RefRead.ListRemotes | lib/refs.rb:141-143 | Every file under refs/remotes is listed under its full name, and every listed name satisfies remote? and is neither HEAD nor a branch. |
| RefRead.IsHeadName | lib/refs.rb:15-17 | A name that passes head? names the file HEAD at the store root. |
| RefRead.IsBranchName | lib/refs.rb:19-21 | A name that passes branch? names a path under refs/heads. |
| RefRead.IsRemoteName | lib/refs.rb:23-25 | A name that passes remote? names a path under refs/remotes. |
| RefRead.PathForNameIs | lib/refs.rb:193-196 | Given which candidates exist, path_for_name settles on the first one. |
| RefRead.ResolvedOidIsStored | lib/refs.rb:219-226 | A resolved value is the direct content of some file in the store. |
| RefRead.ReadSymrefSeenSubset | lib/refs.rb:219-226 | A chain that resolves resolves to the same value wherever the walk starts recording its hops. |
| RefRead.SymbolicTransparency | lib/refs.rb:223 | Reading a symbolic reference gives exactly what reading its target gives. |
| RefRead.ReadSymrefAfterWrite | lib/refs.rb:267-271 | After a plain object id is written at a path, the path resolves to it, whatever it held before. |
| RefRead.ReadRefAfterUpdate | lib/refs.rb:74-81 | Round trip: read_ref(name) after update_ref(name, oid) gives oid. |
| RefRead.AbsentStaysAbsent | lib/refs.rb:74-77 | A name with no candidate file reads as nil, and still does after a write or delete elsewhere. |
| RefRead.ReadRefShortName | lib/refs.rb:192-197 | When nothing shadows it, reading "name" and reading "refs/heads/name" agree. |
| RefRead.BranchSymref | lib/refs.rb:66-68 | The text set_head writes for a branch parses back to that branch's full name, which splits to the branch's file. |
| RefRead.CurrentRefResolvesAlike | lib/refs.rb:124-131 | The reference current_ref reports resolves to the same value as the chain it was reached from. |
| RefRead.DetachedHeadIsCurrent | lib/refs.rb:124-131 | A detached HEAD is its own current reference, and read_head returns its object id. |
| RefRead.HeadOnBranchIsCurrent | lib/refs.rb:124-131 | With HEAD on a branch that holds an object id, current_ref reports that branch and read_head returns its object id. |
| RefRead.ShortNameOfBranch | lib/refs.rb:156-164 | short_name drops "refs/heads/" from a local branch. |
| RefRead.ShortNameOfRemote | lib/refs.rb:156-164 | short_name drops "refs/remotes/" from a remote-tracking branch. |
| RefRead.ShortNameAtRoot | lib/refs.rb:156-164 | A name at the store root, such as HEAD, is its own short name. |
| RefRead.ShortNameElsewhere | lib/refs.rb:156-164 | A name whose directory is under neither refs/remotes nor refs/heads, such as refs/tags/v1, is returned unchanged, because the store root is the prefix found. |
| RefRead.LongNameOfShortName | lib/refs.rb:166-172 | long_name undoes short_name for a branch that no root or refs/ file shadows. |
| RefRead.ReadRefOfFile | lib/refs.rb:192-197 | Reading a file by its full name reads that very file, because the store-root candidate comes first. |
| RefRead.MissingDirListsNothing | lib/refs.rb:188-189 | Listing a missing directory gives the empty list, as the rescued ENOENT does. |
| RefRead.ListedNameReadsItsFile | lib/refs.rb:183-184 | A listed name is its file's full name, and reading it back reads that file. A listed reference is never shadowed. |
| RefRead.BranchesAndRemotesAreListed | lib/refs.rb:133-143 | Every branch and every remote is among all references. |
| RefStore.Written | lib/refs.rb:234-239 | A value is stored in the written form at the path. None removes the file. Every other file is unchanged. |
| RefStore.CasExcludesSecond | lib/refs.rb:83-91 | After one swap from a prior value has gone through, a second swap expecting the same prior value fails. On an unlocked path it fails with StaleValue. |
| RefStore.SymrefWalk | lib/refs.rb:249-265 | The terminal is never symbolic and was not already locked, and its directory exists. Its reported previous value exists exactly when its file does. |
| RefStore.SymrefHop | lib/refs.rb:260-264 | A symbolic hop's outcome is its target's outcome with the hop locked, and the hop's lock is released afterwards. |
| RefStore.SymrefEndsHere | lib/refs.rb:253-258 | At a non-symbolic hop the value is written there and the previous direct value is reported. Onto a directory, the call fails and the marker stays. |
| RefStore.SymrefRefused | lib/refs.rb:250-251 | A hop that is locked, or has no directory, stops the walk before anything changes. |
| RefStore.WalkAgreesWithRead | lib/refs.rb:249-265 | Where no lock is held and the chain resolves, the previous value update_symref reports is what read_symref reads. A chain with no cycle is never blocked by its own locks. |
| RefStore.UpdateHeadWritesThrough | lib/refs.rb:58-60 | With HEAD on a branch, update_head writes to the branch, keeps HEAD symbolic, and reports the branch's previous value. |
| RefStore.Pruned | lib/refs.rb:199-208 | Only existing directories on the ascent from the given directory are removed. refs/heads and the store root are never removed. |
| RefStore.PrunesEmptyChain | lib/refs.rb:199-208 | When nothing else lies under refs/heads/<c>, the ascent removes every directory of the deleted branch's chain and stops at refs/heads. |
| RefStore.PruneBlockedByOwnLock | lib/refs.rb:110-117 | Pruning while the branch's own lock is held removes nothing below refs/heads, because the marker keeps the directory non-empty. |
| RefStore.CreateThenDelete | lib/refs.rb:93-122 | Creating a branch and deleting it reports the start value and restores the files. |
| RefStore.DeleteReadsBack | lib/refs.rb:113-119 | A successful delete reports what the branch resolved to, and afterwards the branch reads as nil. |
| RefStore.ReverseSound | lib/refs.rb:145-154 | Every list in the table is non-empty and holds only names that resolve to its key. |
| RefStore.ReverseComplete | lib/refs.rb:145-154 | Every name with a value is filed under it. |
| RefStore.ReverseFailure | lib/refs.rb:148-150 | The table fails only with the error of some name's read. |
| RefStore.FileUnderValues | lib/refs.rb:148-151 | The loop's table is the reverse of the reader over the names: sound, complete, and with non-empty lists. On failure it reports the error of some name's read. |
| RefStore.Refs.constructor | lib/refs.rb:47-52 | The store works on the given disk. |
| RefStore.Refs.UpdateRefFile | lib/refs.rb:228-247 | Errors are reported in the source's order: lock refused, directory unobtainable, guard failed, commit onto a directory. The file is written or removed only on success. The lock is released except on a cycle. |
| RefStore.Refs.Acquire | lib/refs.rb:241-243 | When the directory is missing it is created and the lock tried once more. A file in the way fails with NotADirectory. |
| RefStore.Refs.WriteLockfile | lib/refs.rb:267-271 | The path holds the value and a line feed, and the lock is released. Onto a directory, the call fails and the buffered marker stays. |
| RefStore.Refs.UpdateRef | lib/refs.rb:79-81 | Round trip: after a successful update, read_ref of the name returns the value. After nil, the file is gone. |
| RefStore.Refs.CompareAndSwap | lib/refs.rb:83-91 | A swap succeeds only if the path resolved to the expected value. StaleValue leaves the files unchanged. On success the path resolves to the new value. |
| RefStore.Refs.UpdateSymref | lib/refs.rb:249-265 | The value is written through to the chain's terminal, whose previous value is reported. A locked hop or a missing directory changes nothing. Every intermediate lock is released. |
| RefStore.Refs.FollowHop | lib/refs.rb:260-264 | Recursing at a symbolic hop, the lock is released afterwards whatever the outcome. |
| RefStore.Refs.CommitTerminal | lib/refs.rb:253-258 | At the terminal the value is committed and the previous direct value, or nil, is reported. |
| RefStore.Refs.UpdateHead | lib/refs.rb:58-60 | update_symref starting from HEAD. |
| RefStore.Refs.SetHead | lib/refs.rb:62-72 | An existing branch makes HEAD symbolic, and HEAD then reads through that branch. Otherwise HEAD is detached at the object id and reads back as it. |
| RefStore.Refs.CreateBranch | lib/refs.rb:93-105 | An invalid name or an existing branch raises InvalidBranch and changes nothing. Otherwise the new branch resolves to the start value and no other file changes. |
| RefStore.Refs.LockAndRead | lib/refs.rb:110-114 | The lock is held exactly when the branch resolves to a value. A branch that reads as nil, including a symbolic one whose target is missing, is InvalidBranch, with the lock already released. |
| RefStore.Refs.DeleteBranch | lib/refs.rb:107-122 | Reports the branch's value, or why it cannot. Only the branch file goes, the locks are as before, and the emptied directories below refs/heads are pruned. |
| RefStore.Refs.DeleteBranchAsWritten | lib/refs.rb:107-122 | Reports the same outcome and removes the same file as the corrected delete. But the ascent runs with the lock held, so when the branch's directory is not refs/heads itself, no directory is removed. |
| RefStore.Refs.DeleteParentDirectories | lib/refs.rb:199-208 | The directories removed are exactly those of the ascent up to refs/heads or the first non-empty one. |
| RefStore.Refs.ReverseRefs | lib/refs.rb:145-154 | Each object id maps to the listed names that resolve to it, HEAD included. Unresolved names are skipped. A cycle anywhere fails the whole table. |

## Left out

- `.`, `..` and absolute names are not normalised, and a name that climbs out of the store root is not modelled.
- A name is split on '/' and empty components are dropped. For a doubled slash this agrees with the file system, which collapses `//`. For a trailing slash it does not: `File.file?` on `refs/heads/main/` is false, so the source's `path_for_name("main/")` finds nothing, while the model finds `refs/heads/main`.
- Reading a directory as a reference file (EISDIR from `File.read`) is not modelled: a directory reads as "no file". Committing onto a directory is modelled, and fails with IsDirectory.
- Lock markers are kept apart from the files, so `list_refs` never reports a `*.lock` file.
- The marker's own name is not modelled: the source builds it with `sub_ext(".lock")`. A marker only occupies the directory of the path it locks.
- RefStore.Refs.ReverseRefs: the order of names inside one table entry is not stated. HEAD comes first in its entry, because `list_all_refs` lists it first. The order of the other names comes from `Dir.entries`, which the model does not fix. The listings are sets for the same reason.
- RefStore.Refs.UpdateRefFile: the `retry` after `mkdir_p` is modelled as a single retry. The source retries without bound, which only matters when another process removes the directory in between.
- RefStore.Refs.DeleteBranch: when the lock is refused, the model reports LockDenied. The source runs `lockfile.rollback` in its `ensure` on a lockfile that was never acquired. `Lockfile#rollback` is taken to be a no-op when the lock is not held, so a stale-lock error raised there is not modelled. `lib/lockfile.rb` is not part of this model; the same applies to the rollback in `update_ref_file`'s rescue.
- RefRead.ShortName: the model requires a non-empty name. For an empty name the source raises: no prefix contains the store root's own parent, so `find` returns nil and `relative_path_from(nil)` fails. That raised error is not modelled.
- RefContent.Strip: its own contract states only that the result has no blank at either end. The exact value (the input less its leading and trailing blanks) is stated by the lemma RefContent.StripTrims.
- RefRead.ReadSymref: an unbounded symbolic cycle ends in Ruby's `SystemStackError`. The model detects the cycle with the set of hops already followed and reports SymrefLoop.
- The `delete_parent_directories` ascent also stops at the store root, which the source reaches only for a path outside refs/heads.
- `Revision.valid_ref?` is a parameter of the store (`validRef`): its name grammar is not modelled.
- Interleavings with other processes, file permissions (`Lockfile::NoPermission`) and real file-system behaviour are not modelled. The disk is a single in-memory tree.
- `SymRef#read_oid` and `SymRef#short_name` are modelled as `RefRead.ReadRef` and `RefRead.ShortName` applied to the listed name. The `Ref` struct is `RefContent.Content.Direct`.
- `lib/command/init.rb` and `test/command/log_test.rb` are callers and tests, not part of this model.

## Findings

| source | as written | input that shows it | evidently intended | confidence | as-written member | corrected member |
|---|---|---|---|---|---|---|
| lib/refs.rb:107-122 | `delete_branch` calls `delete_parent_directories` while it still holds the branch's lock. The lock marker is a sibling file in the branch's own directory, so `Dir.rmdir` of that directory meets ENOTEMPTY and the ascent stops at once. | The only branch is `refs/heads/a/b/c`, and `delete_branch("a/b/c")` is called. The file goes, but `refs/heads/a/b` and `refs/heads/a` stay behind. | Release the lock, then prune, so the emptied directories below `refs/heads` are removed. | not executed | RefStore.Refs.DeleteBranchAsWritten | RefStore.Refs.DeleteBranch |
