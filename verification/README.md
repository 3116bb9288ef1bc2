# TalePanel: a verified model

TalePanel is a Go control plane (the panel) and a Rust daemon on each node that hosts game servers.
This project models the parts where a mistake loses data or lets one tenant reach another, and
proves what they are for. Everything is stated for all inputs, all starting filesystems, all
schedules of short reads, all interleavings and all points of failure, unless a row says otherwise.

| file | what it models |
|---|---|
| `FileTree.dfy`, `FileSystems.dfy` | the node's filesystem: directory entries, inodes with hard links, symbolic links resolved as the kernel does, system calls that may fail |
| `ExtractSpec.dfy`, `SafeFs.dfy` | `safe_fs`: temp-and-rename writes, link-refusing directory chains, archive extraction with byte budget and rollback log, refining a pure specification |
| `ZipTree.dfy`, `ArchiveNames.dfy`, `RoundTrip.dfy` | the archiving walk, member names, and archive followed by extraction |
| `BackupCrypto.dfy`, `BackupStream.dfy`, `Backup.dfy` | the encrypted backup stream, its buffers and readers, and backup followed by restore end to end |
| `PathResolver.dfy` | `resolve_in_server` |
| `ServerMigration.dfy`, `SchemaMigration.dfy` | the cross-node move and the schema-migration runner as step systems |
| `NodePki.dfy`, `ActiveWorld.dfy` | crash consistency of the node's PKI files and of the `config.json` rewrite |
| `Rclone.dfy` | the rclone config file, its read-back and write-back diff, remote object paths |
| `ConsoleRoles.dfy`, `GameCommands.dfy` | the console role table and the command template resolver |
| `SessionLimiter.dfy`, `RateLimit.dfy` | the two limiters against their simple specifications |
| `Prelude.dfy`, `Text.dfy` | result types; splitting, trimming and words |

How failures appear: a system call may fail for a reason outside the tree only if the filesystem's
`faults` allow that class of call to fail (`stat`, `read`, `write`, `remove`), so a contract can say
which failures it tolerates. A crash is the same as a call that fails with the clean-up failing too.
The filesystem keeps a trace of `lstat` answers and renames, so a contract can speak of what was answered.

Where code and comment differ, the model follows the code:

- `ratelimit.go` speaks of a sliding window and of setting the expiry on first creation; it is a fixed
  one-minute bucket whose expiry is renewed on every request. The true sliding bound is twice the limit,
  and it is reached.
- `MigrateServer` says the target reconstructs the data directory. The import only adds and replaces,
  so names left on the target by an earlier stay survive (`ServerMigration.LeftoversSurvive`).
- The rollback of a failed extraction removes the names it added; it does not bring back the contents of
  files it had replaced. It also relies on `lstat`: any `lstat` error counts as "did not exist", and
  then a name that was there before is removed (`SafeFs.FailedStatLosesName`); exactly those are lost
  (`SafeFs.ExtractZip`).
- `write_active_world` removes whatever is at its temp name first. If the way to the server directory leads
  over a link there, the directory can no longer be reached by that path (`ActiveWorld.WindingLosesWay`).
- `budget + 1` wraps at the largest 64-bit budget, where files then come out empty
  (`ExtractSpec.CopiedWhole`). The daemon's own limit is 20 GiB.
- A file name with a backslash is archived as a path and does not come back under its own name
  (`ArchiveNames.StoredNameRoundTrip`); if that path exists too, the archive cannot be written.
- The rate limiter's counter outlives its minute only for increments that reach Redis in time; a late
  one can find it gone (`RateLimit.BucketBoundIff`).

## Model

| member | source | states |
|---|---|---|
| SafeFs.ExtractZip | services/daemon/src/http_server.rs:666-691 | for every archive and filesystem, on success, skip, error and rollback alike: no entry outside the canonical base differs, no existing inode's bytes differ, no link appears, no old directory is lost, and no old name is lost but one whose deciding `lstat` in this very call answered with an error before it was renamed over; success did exactly what the extraction specification says and wrote at most the limit; never more than limit + 1 bytes are written; an error whose removals work leaves exactly the old names without those, so exactly the old names if and only if there is none; whatever fails, what is left is what the specification leaves when it breaks off, with only written names taken away; without faults it fails only where the specification stops or no temp name was free |
| SafeFs.ExtractEntries | services/daemon/src/http_server.rs:693-781 | the loop follows the specification entry by entry, bytes written plus budget left equal the limit, the two logs account for every added name, the file log is exactly the paths whose `lstat` gave an error and which were then renamed over, and an error leaves the entries so far plus what the current one can leave half done |
| SafeFs.ExtractEntry | services/daemon/src/http_server.rs:704-779 | one entry of any kind has exactly the specified effect and outcome; an error leaves part of its directories and at most one temp file |
| SafeFs.EnsureDirChain | services/daemon/src/http_server.rs:623-652 | the chain creates exactly the missing directories the specification says, never passes a link or a file, and records every directory it made |
| SafeFs.WriteAtomic | services/daemon/src/http_server.rs:574-594 | success puts a fresh inode with the copied bytes at the entry the path names and changes nothing else; failure leaves the names as they were, or one temp file if its removal failed too |
| SafeFs.CreateTemp | services/daemon/src/http_server.rs:527-541 | the temp file is a new inode under a free temp name in the target's directory; failure changes nothing |
| SafeFs.Commit | services/daemon/src/http_server.rs:544-571 | the temp is renamed over the target entry, or removed; a directory is refused |
| SafeFs.RemoveFiles | services/daemon/src/http_server.rs:681-684 | exactly recorded file names go, and all of them if removal works |
| SafeFs.RemoveDirs | services/daemon/src/http_server.rs:685-688 | in reverse order every recorded directory is empty at its turn, so all of them go |
| SafeFs.DirIsEmpty | services/daemon/src/http_server.rs:685-688 | once the recorded files and later directories are gone, nothing is left inside the next recorded directory |
| SafeFs.RollbackExact | services/daemon/src/http_server.rs:680-689 | after a rollback whose removals work exactly the old names that were not recorded exist, each of its old kind |
| SafeFs.RollBack | services/daemon/src/http_server.rs:680-689 | the whole rollback, removals failing or not: only recorded names below base go, and an old name only if the calls made show it was misjudged |
| SafeFs.LostIsMisjudged | services/daemon/src/http_server.rs:749-756 | the old names a rollback loses are exactly those whose deciding `lstat`, as the trace of calls shows it, gave an error before they were renamed over |
| SafeFs.WrittenRecords | services/daemon/src/http_server.rs:749-779 | a completed write adds its path to the record exactly if the `lstat` before it gave an error |
| SafeFs.RollbackConfined | services/daemon/src/http_server.rs:680-689 | even a rollback whose removals fail touches nothing outside base, no inode and no old directory |
| SafeFs.FailedStatLosesName | services/daemon/src/http_server.rs:749-756 | that this happens: for every existing file and an archive that replaces it and then cannot be read, the calls of one run with one failing `lstat`, their trace, and the rollback that removes the old name |
| ExtractSpec.CopiedBound | services/daemon/src/http_server.rs:758-765 | at most budget + 1 bytes are ever copied, and a copy that is accepted fits the budget |
| ExtractSpec.CopiedWhole | services/daemon/src/http_server.rs:758-765 | an entry that counts as written was copied whole, except exactly that at the largest 64-bit budget the wrapped cap copies nothing |
| ExtractSpec.FillsIff | services/daemon/src/http_server.rs:758-765 | below the largest budget an entry is accepted exactly if its stream ends without an error within the budget; otherwise the error says which it was |
| ExtractSpec.EntryByName | services/daemon/src/http_server.rs:704-779 | what an entry does by its name as a path: which directories it makes, where its bytes go, when it is skipped (something in the way, a directory of its name) and when it stops everything (too large, damaged) |
| ExtractSpec.BlockedChain | services/daemon/src/http_server.rs:628-634 | a chain stopped by a file, a link or `..` keeps the directories it had made and no others |
| ExtractSpec.LinkMembersSkipped | services/daemon/src/http_server.rs:655-657 | members of file type ten in their Unix mode are skipped; any other mode plays no part |
| ExtractSpec.UnusableMembers | services/daemon/src/http_server.rs:704-714 | a member that cannot be read stops everything; one whose name the reader refuses is skipped |
| ExtractSpec.TempNameIff | services/daemon/src/http_server.rs:497-504 | temp names are exactly the generated form: `.tp-`, anything, `.tmp` |
| RoundTrip.ArchiveRoundTrip | services/daemon/src/http_server.rs:666-831 | archive any tree, extract onto any target: absent a clash it completes exactly if the bytes of the source's files fit the limit; then everything archived is there if and only if nothing clashed before, and nothing else is there if and only if the target had no other names |
| RoundTrip.RebuildsIff | services/daemon/src/http_server.rs:693-781 | the same for any archive that lists a well-formed tree, in any order, with every file counted as written and nothing as skipped |
| RoundTrip.RestoreOne | services/daemon/src/http_server.rs:704-779 | one member lands where it belongs and disturbs nothing already right |
| RoundTrip.AllKeepKinds | services/daemon/src/http_server.rs:693-781 | extraction never removes a name and never turns a directory into anything else or back |
| RoundTrip.ArchiveMatches | services/daemon/src/http_server.rs:788-831 | what the walk wrote, read back, lists exactly the restorable part of the source |
| RoundTrip.ArchiveWeighs | services/daemon/src/http_server.rs:788-831 | an archive has one member per restorable path and exactly their bytes |
| ZipTree.ZipTree | services/daemon/src/http_server.rs:788-831 | every directory and regular file reachable without a link, temp name or excluded path is archived exactly once, with its bytes, and nothing else is; without read failures it fails only if two of them share a stored name, which the writer refuses |
| ZipTree.ArchivedIff | services/daemon/src/http_server.rs:795-805 | which paths these are: every directory and regular file with no name of the form `.tp-`...`.tmp` and no excluded path on its way |
| ZipTree.RenderedDistinct | services/daemon/src/http_server.rs:788-831 | and if two of them do, it never succeeds |
| ZipTree.PlainDistinct | services/daemon/src/http_server.rs:807-811 | names without backslashes never share a stored name |
| ArchiveNames.StoredNameRoundTrip | services/daemon/src/http_server.rs:807-811 | a stored name leads back to its path if and only if no component has a backslash |
| PathResolver.ResolvedIsSafe | services/daemon/src/http_server.rs:886-989 | an accepted path lies at or below the canonical root, no component of it is a link, it or its parent exists, and a system call given it acts on that very entry |
| PathResolver.PlainPathResolves | services/daemon/src/http_server.rs:919-986 | any user string without `..` and NUL that ends in a name, with whatever doubled slashes and dots, resolves to the typed names below the root if and only if they sit in a real directory and are no link |
| PathResolver.FinalLinkRefused | services/daemon/src/http_server.rs:940-942 | a link in final position is refused wherever it points |
| PathResolver.VerdictByName | services/daemon/src/http_server.rs:886-934 | what every other string gets: a bad id is refused, `..` anywhere is traversal, any spelling of the root gives the root, a NUL is an invalid path |
| PathResolver.DirectoryResolves | services/daemon/src/http_server.rs:931-951 | a path to a real directory resolves to it with a trailing slash or dot as well |
| PathResolver.NamedPathIff | services/daemon/src/http_server.rs:936-989 | with any links on the way: a path ending in a name resolves exactly to that name in the directory the rest leads to, if and only if that is no link and lies below the root |
| PathResolver.ServerIdIff | services/daemon/src/http_server.rs:846-848 | a server id is five groups of 8, 4, 4, 4 and 12 hexadecimal digits |
| BackupStream.EncryptStream | services/daemon/src/backup_crypto.rs:52-87 | for every schedule of short reads: success writes exactly the archive and seals exactly its chunks under unused nonces; without I/O faults it fails only if the counter cannot number the chunks; a failed run has sealed no final chunk or all of them |
| BackupStream.DecryptStream | services/daemon/src/backup_crypto.rs:91-128 | success and output are those of the decoding specification; any failing run has written only a prefix of that output |
| BackupStream.ReadFull | services/daemon/src/backup_crypto.rs:131-142 | fills the buffer with exactly the next bytes however they are portioned out, short only at the end |
| BackupCrypto.DecodeIff | services/daemon/src/backup_crypto.rs:91-128 | under an ideal AEAD, any bytes decrypt if and only if they are an archive made under the key, the key-id byte aside; what comes out is always a prefix of that archive's plaintext |
| BackupCrypto.DecodeBodyIff | services/daemon/src/backup_crypto.rs:113-127 | the chunk-level form, from any counter on |
| BackupCrypto.DecryptEncrypt | services/daemon/src/backup_crypto.rs:52-128 | decrypting an encrypted plaintext of at most 2^32 chunks gives it back |
| BackupCrypto.TruncationDetected | services/daemon/src/backup_crypto.rs:91-128 | an archive cut anywhere is refused after at most a prefix of its plaintext |
| BackupCrypto.TamperingDetected | services/daemon/src/backup_crypto.rs:91-128 | bytes that differ in more than the key id are refused unless they are another whole archive of that key; before the error at most a prefix of the plaintext comes out, of the archive the nonce prefix belongs to, or the first chunks of a run that broke off, or nothing |
| BackupCrypto.BrokenRunOutput | services/daemon/src/backup_crypto.rs:113-127 | any bytes under the prefix of a run that broke off are refused after that run's first chunks, in order |
| BackupCrypto.ArchiveLength | services/daemon/src/backup_crypto.rs:22-34 | 16 + length + 16 per chunk, with at least one chunk |
| BackupCrypto.CounterSufficesIff | services/daemon/src/backup_crypto.rs:22-34 | the counter numbers plaintexts of up to 2^32 chunks of 64 KiB and no longer ones |
| BackupCrypto.SealedNonces | services/daemon/src/backup_crypto.rs:66-85 | chunk i carries counter i and exactly the final chunk the last flag |
| BackupCrypto.SealedChunk | services/daemon/src/backup_crypto.rs:68-85 | the chunk under counter i is the i-th 64 KiB of the plaintext |
| BackupCrypto.CompletedRunLogged | services/daemon/src/backup_crypto.rs:52-87 | a completed run keeps the record of sealed chunks accounted for, so integrity holds over any number of archives |
| BackupCrypto.BrokenRunLogged | services/daemon/src/backup_crypto.rs:52-87 | so does a run that broke off |
| Backup.BackupAndRestore | services/daemon/src/http_server.rs:1876-2015 | with or without a key: onto a target without a clash, a tree within the entry and byte limits is restored when no system call fails (or eight temp names in a row were taken), and a tree beyond them never is; after success the target holds exactly the restorable tree if and only if it was compatible before, in particular if it was empty; a failed restore leaves the target's names as they were |
| Backup.WriteBackupArchive | services/daemon/src/http_server.rs:1876-1900 | what is stored is the zip of exactly the archived tree, or its encryption; without read failures it fails only on colliding names, a missing nonce prefix or too many chunks |
| Backup.OpenPlaintextArchive | services/daemon/src/http_server.rs:1905-1920 | opens exactly what is not encrypted or decrypts under the given key |
| Backup.OpensToZip | services/daemon/src/http_server.rs:1876-1920 | opening a stored archive with its key gives the zip back |
| Backup.RestoreBackup | services/daemon/src/http_server.rs:1964-2015 | restoring touches nothing outside the server directory; without faults it fails only if the archive does not open, is no zip, has too many entries or cannot be extracted, or no temp name was free; an error leaves the old names |
| Backup.RestorableIff | services/daemon/src/http_server.rs:1964-2015 | on a target without a clash an archive of the tree can be extracted if and only if the tree is within the limits |
| ServerMigration.MigrationIsSafe | services/api/internal/handlers/servers.go:1318-1408 | over any number of attempts with any step failing or being the last, on the panel and inside the import alike, the node the record names holds the complete server tree |
| ServerMigration.StepKeepsInv | services/api/internal/handlers/servers.go:1358-1406 | each step keeps that, and the target fit for another attempt |
| ServerMigration.RepointsAfterImport | services/api/internal/handlers/servers.go:1396-1401 | over any run from a state not running: the record is re-pointed only by a completion that took effect, at the end of an attempt in which preflight, archive, download and import succeeded in that order, with the whole server tree on the target, which has not changed since |
| ServerMigration.AttemptExplained | services/api/internal/handlers/servers.go:1335-1401 | an attempt under way in any phase went through every step up to it, each with success, starting from a preflight that was not refused |
| ServerMigration.BreakFits | services/daemon/src/http_server.rs:666-781 | an import that breaks off anywhere (between entries, inside a chain of directories, with a temp file left, at any point of its rollback) leaves a target without a clash |
| ServerMigration.NextAttemptCompletes | services/api/internal/handlers/servers.go:1318-1408 | so from every such state an attempt in which nothing fails moves a server within the extraction limits |
| ServerMigration.ImportServer | services/daemon/src/http_server.rs:2312-2365 | whatever fails in the daemon's import, its effect is one of the import steps of the migration; without faults it is the completing one whenever the archive can be extracted (or no temp name was free) |
| ServerMigration.LeftoversSurvive | services/daemon/src/http_server.rs:2312-2365 | what an import does not do: names the server no longer has stay on the target |
| SchemaMigration.MigrationsAreSafe | services/api/internal/db/migrate.go:38-161 | any number of interleaved, failing, dying runners: each body commits at most once and never for an already recorded version; a recorded version's body committed or was reported present; the recorded set stays a prefix of the file list; a finished run has recorded every file |
| SchemaMigration.RecordedIff | services/api/internal/db/migrate.go:130-161 | over the events: a version is recorded exactly if it was before or a transaction for it committed, its body committed exactly if that transaction had run it, and it was reported exactly if the database said it is in place |
| SchemaMigration.CommitHasPast | services/api/internal/db/migrate.go:130-161 | behind every commit stand, by the same runner and in that order, an execution the database did not fail and the insertion of the row |
| SchemaMigration.NothingAfterSuccess | services/api/internal/db/migrate.go:57-84 | once every file is recorded no event of any runner changes schema or record |
| SchemaMigration.StepKeepsInv | services/api/internal/db/migrate.go:128-161 | every statement of every runner keeps the invariant behind this |
| SchemaMigration.RunMigrations | services/api/internal/db/migrate.go:38-86 | with any number of other runners at work between its statements, the loop goes through these steps and no others, and reports success only with every file recorded and nothing of its own failed; undisturbed and without failures it does report success |
| SchemaMigration.ApplyOne | services/api/internal/db/migrate.go:128-161 | one file is applied and recorded in one step with nothing failed, or the runner stops, whatever the others do meanwhile |
| NodePki.CrashIsSafe | services/daemon/src/pki.rs:62-97 | after a crash at any point over any earlier files, a load gives nothing, the whole old set, the whole new set, or the old pair under a new CA that signed it; a new certificate never comes with an old key |
| NodePki.CrashStates | services/daemon/src/pki.rs:80-97 | the files are always a prefix of the writes in the order CA, certificate, key |
| NodePki.FileIsAtomic | services/daemon/src/pki.rs:62-78 | a file changes only with the rename, and no other file with it |
| NodePki.LoadIff | services/daemon/src/pki.rs:119-183 | what loads is exactly a P-256 key with its certificate, signed by the stored CA, naming this node and no other, and good for thirty more days |
| NodePki.PkiStore.EnsurePki | services/daemon/src/pki.rs:185-206 | a success leaves on disk the set it returns, and that set validates; an existing valid set is kept; without write failures it fails only if the panel issues nothing valid for the new key; a failure never pairs the new certificate with an old key |
| ActiveWorld.WriteActiveWorld | services/daemon/src/command_poller.rs:659-699 | wherever links lead to the server directory: success installs exactly the edited configuration in a fresh file there, and without faults it succeeds exactly if the present configuration can be edited and replaced; any failure leaves the old one, and it reads as before unless a link at the temp name was on the way to the directory, when it reads as no world |
| ActiveWorld.WindingLosesWay | services/daemon/src/command_poller.rs:587-594 | a directory reached over a link at its own temp name is such a case |
| ActiveWorld.WriteFileAtomic | services/daemon/src/command_poller.rs:704-726 | wherever it stops, at most the temp name differs and no existing inode is written; without faults it succeeds exactly if the target is no link and no directory, the temp name is no directory and the directory can be reached without it; links above the directory are followed |
| ActiveWorld.CreateFreshTemp | services/daemon/src/command_poller.rs:587-594 | a stale or planted temp entry is replaced by a new empty inode, never written through, at the entry the path names; without faults it fails only on a directory there or if the path leads over that entry |
| ActiveWorld.SetWorldIsLens | services/daemon/src/command_poller.rs:680-692 | the edit reads back, keeps every other key at both levels, and a later edit overrides it |
| ActiveWorld.SafeWorldNameIff | services/daemon/src/command_poller.rs:629-637 | accepted world names are single path components without two dots in a row |
| ActiveWorld.ReadAfterWrite | services/daemon/src/plugin_scanner.rs:129-152 | the reader reports the written world if and only if the configuration prints to at most 1 MiB |
| Rclone.ValidSpecRoundTrips | services/daemon/src/rclone.rs:126-194 | for every validated spec and any option order, parsing the rendered file gives the options with trimmed values plus the backend |
| Rclone.ParseOfRender | services/daemon/src/rclone.rs:164-194 | the same for any one-line values |
| Rclone.RenderConfig | services/daemon/src/rclone.rs:164-173 | the loop writes exactly the rendered file |
| Rclone.ParseConfigSection | services/daemon/src/rclone.rs:176-194 | the loop reads exactly the remote's section |
| Rclone.FileMeans | services/daemon/src/rclone.rs:177-194 | what any file says, whoever wrote it: a key has the last value a line of a `[tp]` section gives it; other sections, comments and lines without an equals sign say nothing |
| Rclone.UpdatesAfterRewrite | services/daemon/src/rclone.rs:197-209 | if rclone rewrites the file in the same form, with any options in any order, the updates are exactly the write-back keys whose trimmed value is not empty and differs |
| Rclone.UpdatesFromAnyFile | services/daemon/src/rclone.rs:197-209 | for any text the file was rewritten to: the updates are exactly the three write-back keys whose last value is not empty and not the one sent |
| Rclone.NoUpdatesIff | services/daemon/src/rclone.rs:500-567 | with the file left alone there is nothing to write back, exactly if no write-back value has white space around something |
| Rclone.ObjectPathInjective | services/daemon/src/rclone.rs:91-153 | different (base, server, file) triples never share an object path |
| Rclone.ObjectPathSegments | services/daemon/src/rclone.rs:91-153 | an accepted object path has no empty, dot, dot-dot or dash-leading segment |
| Rclone.OptionKeyIff | services/daemon/src/rclone.rs:69-80 | which option keys are accepted |
| Rclone.BasePathIff | services/daemon/src/rclone.rs:91-114 | which base paths: safe segments with slashes between them and perhaps one in front |
| Rclone.NameComponentIff | services/daemon/src/rclone.rs:117-124 | which generated names |
| Rclone.SpecIff | services/daemon/src/rclone.rs:126-144 | which specs |
| Rclone.ObjectPathIff | services/daemon/src/rclone.rs:147-153 | an object path is handed out exactly for accepted parts, and is these parts with slashes between them |
| GameCommands.FillRendersPieces | services/api/internal/handlers/game_commands.go:277-294 | how a token splits into literals and placeholders depends on the template alone; filling shows each literal as written and each placeholder as its value |
| GameCommands.OnlyFullSplit | services/api/internal/handlers/game_commands.go:277-294 | that split is the only one that finds every placeholder, each from the first brace to the first one closing it |
| GameCommands.FillPlaceholders | services/api/internal/handlers/game_commands.go:277-294 | the scanning loop computes exactly that |
| GameCommands.ResolveCommandTemplate | services/api/internal/handlers/game_commands.go:221-254 | succeeds exactly if every value passes its check, and then yields the resolved command |
| GameCommands.AcceptedValue | services/api/internal/handlers/game_commands.go:263-273 | which values are accepted and as what: stripped, free of control characters, and a single word that is no flag unless free text |
| GameCommands.PlaceholderShows | services/api/internal/handlers/game_commands.go:221-237 | a placeholder shows the caller's stripped value, `{world}` always the server's world, an unknown name nothing |
| GameCommands.FlagsGoWithValues | services/api/internal/handlers/game_commands.go:239-254 | a flag before a placeholder is emitted right before its value, or not at all with an empty one |
| GameCommands.ResolvedSplitsIntoEmitted | services/api/internal/handlers/game_commands.go:221-273 | without free text, splitting the command gives back exactly the emitted words |
| GameCommands.ResolvedIsOneLine | services/api/internal/handlers/game_commands.go:221-273 | if the template has no control characters but white space, neither has the command |
| GameCommands.ResolvedNeedsNoMore | services/api/internal/models/console_roles.go:22-39 | for every template and all parameters the resolved command needs no higher role than the template |
| GameCommands.ResolvedNeedsTheSame | services/api/internal/models/console_roles.go:22-39 | with the first two words free of braces and leading dashes the needs are equal |
| GameCommands.PlaceholderMayLowerNeed | services/api/internal/handlers/game_commands.go:221-254 | without that condition they may differ: a verb with an unfilled placeholder behind it |
| GameCommands.ClampedGateSuffices | services/api/internal/handlers/game_commands.go:103-172 | whoever passes the clamped minimum role passes the check on the resolved command |
| GameCommands.ClampIsMax | services/api/internal/handlers/game_commands.go:167-172 | the clamp raises the minimum role to what the command needs and leaves a higher one alone |
| ConsoleRoles.WhoMayRun | services/api/internal/models/console_roles.go:10-54 | who may send what: users help and world save, moderators also the eight moderation verbs, admins and owners everything, anyone else nothing |
| SessionLimiter.PruningLosesNothing | services/api/internal/handlers/servers.go:45-62 | on a clock that does not go back the pruned map decides exactly as the full history does |
| SessionLimiter.FreshLimiterIsExact | services/api/internal/handlers/servers.go:45-62 | from the start on, the same, so a call is allowed exactly if no allowed call for that server came less than ten seconds before; mints of one server are at least ten seconds apart; after each allowed call the map holds only servers minted within the last ten seconds |
| SessionLimiter.ClockStepBackDiffers | services/api/internal/handlers/servers.go:45-62 | the clock condition is needed |
| SessionLimiter.Limiter.AllowGameSession | services/api/internal/handlers/servers.go:45-62 | the locked section decides and prunes exactly as specified |
| RateLimit.BucketBoundIff | services/api/internal/middleware/ratelimit.go:31-89 | for all request sequences: at most N requests of a client's minute are served if and only if no more came in or no increment found the counter expired |
| RateLimit.FirstServedIff | services/api/internal/middleware/ratelimit.go:31-89 | exactly the first N of them are served under that same condition and no other |
| RateLimit.TimelyIsUnbroken | services/api/internal/middleware/ratelimit.go:44-48 | increments that reach Redis within their minute always find the counter |
| RateLimit.AtMostLimitPerBucket | services/api/internal/middleware/ratelimit.go:31-89 | with increments that reach Redis within their minute, per client and minute exactly the first N requests are served |
| RateLimit.AtMostTwiceLimitPerWindow | services/api/internal/middleware/ratelimit.go:31-89 | in any sixty seconds at most 2N, if that condition holds of the two minutes they touch, in particular with timely increments |
| RateLimit.TwiceLimitIsReached | services/api/internal/middleware/ratelimit.go:31-89 | for every N a run that serves 2N within two seconds |
| RateLimit.ExpiryCoversBucket | services/api/internal/middleware/ratelimit.go:44-46 | the expiry runs from the current second to the end of the minute, so a counter never expires before its minute ends |
| RateLimit.LateIncrementStartsOver | services/api/internal/middleware/ratelimit.go:77-89 | a family that fails the condition: for every N an increment that reaches Redis after its minute finds the counter gone, and more than N requests are served |
| RateLimit.Limiter.RateLimit | services/api/internal/middleware/ratelimit.go:31-72 | one request increments its counter and is served exactly if the count is within the limit, with the exact number of requests left reported; it is served unlimited if Redis fails, and without being counted if development mode exempts it |

## Left out

- ExtractZip: contents of files it had replaced are not brought back by the rollback, so it is stated for names and kinds; with failing removals the names left are described as an extraction that broke off.
- TamperingDetected: replacing an archive by another whole archive made under the same key is not detected by the stream format, so it is excluded.
- MigrationIsSafe: "complete" means what an archive carries, so links, special files and temp names stay behind; names with backslashes are excluded; the directory that holds the server directories is taken to exist on the target.
- BucketBoundIff: counts the requests Redis answered; those served because Redis failed, and exempt ones, are described by `Limiter.RateLimit`. A pipeline of which only the increment was executed is not modelled.
- AtMostTwiceLimitPerWindow: one direction only, because a client may stay within 2N in a window although some counter expired too early.
- UpdatesAfterRewrite: covers files in rendered form; any other form is covered by `UpdatesFromAnyFile`.
- Concurrent writers to the filesystem during extraction, archiving or resolution; the branch of the directory chain for a lost race needs one.
- Permission bits, timestamps, fsync and the durability order of renames across a power loss.
- The zip, JSON, PEM and AEAD libraries: ideal functions with the properties named in the models; a member name's component list is arbitrary for extraction and computed for the round trip.
- Names that are not valid UTF-8, and Go strings that are not; the operating system's limit on the length of a name.
- `resolve_in_server` creating a missing server directory first; the resolver starts from the tree after that.
- Where the backup and scratch archives themselves are stored; they are byte sequences here.
- The rclone, downloader and game server processes, process management, firewall and network monitoring.
- HTTP binding and status mapping, the web application, authentication and most service bodies; migration preflight and re-pointing are one guard and one atomic update.
- Address-range predicates, alert evaluation and power-action dispatch, which would only add easy members.
