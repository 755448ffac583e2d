# Verified model of HandoffGraph's stateful core

HandoffGraph records what coding agents do, shares it and hands it over. This
project models the parts of it that hold hard state, and proves what they are
trusted for. Each component is a group of modules; where the source changes
state step by step the model is a method or a class proved against a
specification function, and the lemmas are about that function.

**Claude hook installer** (`ClaudeMerge`, `ClaudeMergeProofs`, `ClaudeMeaning`,
`ClaudeSettings`, `ClaudeTables`, `ClaudeTransaction`, `ClaudeRecovery`,
`ClaudeRivals`, `ClaudeOutcomes`, `ClaudeInstaller`, `Json`). Two files, a
settings document and an ownership sidecar, change as one recoverable
transaction. A disk is the content of both files, each write or rename is one
step, and a crash may fall between any two steps. The main theorems: operations
that crash anywhere linearize to complete runs (`CrashesLinearize`), recovery
is invisible to the next operation, settings that were not read are never
replaced, whatever other programs write before each comparison, and merging and
unmerging the settings tree undo each other. What a success leaves in both
files, and when it is answered, is stated in terms of groups and handlers alone
(`ClaudeOutcomes`, `ClaudeMeaning`).

**Codex hook installer** (`TextEdits`, `TomlMask`, `TomlTokens`, `CodexLines`,
`CodexRegions`, `CodexBlocks`, `CodexFacts`, `CodexScanProofs`,
`CodexDocument`, `CodexRewrite`, `CodexQuote`, `CodexConfig`, `CodexInstall`,
`CodexInstallProofs`, `CodexUpdates`, `CodexAppends`, `CodexInstallLaws`,
`CodexUserLines`, `CodexHeaders`, `CodexOutcomes`, `CodexScanner`,
`CodexFile`). TOML text is edited without re-encoding it. Text is a sequence of
code points; the lexer mask, line reader, region scanner, block printer and
splice engine are modelled character by character, and the TOML decoder is a
parameter. The main theorems: the mask agrees with a token-level reading of the
text, scanning any mixture of user text and printed blocks finds exactly the
blocks, and for every decoder and every text without managed inline arrays or
historical tables a second install changes nothing and an uninstall answers
what it would have answered before the install; and in the decoded text of any
successful install each event runs the command exactly once, in the managed
group (`CodexOutcomes`).

**Hosted sync** (`SyncLog`, `SyncPacker`, `SyncProtocol`, `SyncRun`). A client
with a durable cursor and one durable pending batch, a network that may lose,
delay and repeat requests, and a server that answers a repeated key with the
original receipt. `SyncProtocol` is the state machine with all its steps,
crashes included; `SyncRun` is the client's loop, proved to take only steps of
that machine. The main theorems: the server holds each event once, redacted, as
a prefix of the log that the durable state pins down, no request ever carries
text that is not redacted, and an invocation that ends without error accepts
exactly what it previewed.

**OTLP ingest** (`ProtoWire`, `ProtoReader`, `ProtoValues`, `ProtoMessages`,
`ProtoDecoder`, `ProtoJson`, `ProtoSpellings`, `ProtoJsonDecoder`,
`ProtoAgreement`, `OtlpConvert`, `OtlpConvertProofs`, `OtlpReports`). The
protobuf wire codec, the two attribute-value decoders, and the two-phase
conversion of spans to ordered events. The main theorems: both decoders give
every value tree its meaning, with the exact condition for each, the JSON
decoder accepts exactly the spellings of a value, every accepted span is
reported by its two events and they by no other (`OtlpReports`), and the exact
conditions for started and completed events to bracket their spans and for
parent references to resolve.

**Event store** (`EventStore`, `EventStoreProofs`, `EventStoreMeaning`,
`EventLog`). Atomic batch append with immutable envelopes and a per-session
ownership join, over all series of batches.

**Observations** (`TextOrder`, `SpanFacts`, `Coalescing`, `ExceptionGroups`).
Folds that must not depend on arrival order, shadowing that must never hide all
evidence, and exception groups that conserve counts.

**Smaller cores**: prompt truncation (`Prompt`), deny patterns (`DenyPattern`)
and shell quoting (`ShellQuote`). `Common`, `Strings` and `Utf8` hold shared
datatypes and text functions.

## What is assumed

- Digests, idempotency keys, signature hashes and derived ids are injective:
  the first two and the ids are modelled as the value they stand for,
  signature hashes by the premise `Injective` where it is needed.
- `ClaudeTransaction.Lossless`: the JSON reader returns objects that keep the number
  grammar of RFC 8259, section 6, and nest at most 10000 deep, and the writer's
  output for such an object reads back as it. The merges make no others
  (`ClaudeTables.FreshDecodable`, `ClaudeTables.UninstalledDecodable`).
- `ReadsToml`: the TOML decoder refuses text that ends inside a string, maps
  every event whose group header it accepts, and reads appended blocks as one
  more group each. It may refuse any text.
- `Faithful` (in `ProtoJson`): the library codecs for base64 and floating-point
  text read back what they write, for finite doubles, and base64 text is ASCII.
- `ReadsUpdates` and `ReadsPrinted` are about texts for which the TOML decoder
  returns as many groups of each managed event as the scanner counts headers, so
  that each group is that of its header (`Mapped`); the installer refuses all
  others. In them, where the decoder reads every printed block as its commands,
  it reads other commands in their place as theirs, or refuses the text; and a
  group of the shape the installer writes, where a block is printed, holds the
  commands printed.
- `RefusesBadEscapes`: behind text that it accepts, the decoder refuses blocks
  that hold a string with escapes its version of TOML does not have.
- `Telling` (in `EventStoreProofs`): equal envelopes make equal claims.
- `Printing` (in `CodexQuote`): no control character counts as printable.
- `Globs` and `TakesLiterals` (in `DenyPattern`): the glob library matches literals
  and stars as documented, a star standing for any run without slashes, and takes a
  pattern without metacharacters as it is.
- `Site.redacts` and `Allows` (in `SyncProtocol` and `SyncRun`): a relation says which
  texts may stand for an envelope; the engine of each invocation yields only such.
- `Regular` and `Lawful` (in `ProtoSpellings`): the JSON reader hands out numbers
  without a plus sign or a zero before another digit.
- The event store's page query is ordered, exclusive below, inclusive above and
  limited; state files are read back as they were saved.

## What was found

- An uninstall that loses the settings file to another writer is meant to put
  the active ownership record back (comment at `integrations/claude/hooks.go:1104`).
  The restoring write is guarded by the settings snapshot that has just been seen
  to change, so it takes place only when the old bytes are back in between; with
  any others the record stays pending and blocks later operations
  (`ClaudeRivals.UninstallRestoresIff`, `ClaudeRivals.StrandedRecordBlocks`).
- The two OTLP decoders disagree on NaN and infinite doubles, whose strings the
  JSON decoder refuses; on text that is not UTF-8, which the protobuf decoder
  keeps for the sanitizer to reject and the JSON decoder silently repairs; and on
  nesting: the protobuf limit of 32 counts the messages around a value, which are
  four to six for an attribute, while the JSON limit is far away. So fourteen
  nested arrays in a span's attribute make the whole request unreadable in one
  form only (`ProtoAgreement.DeepAttributeDiffers`). Elsewhere they agree
  (`ProtoAgreement.DecodersAgree`, `ProtoAgreement.AttributesAgree`). The comments
  at `internal/otlp/proto.go:489` and `internal/otlp/proto.go:455` say that the
  JSON path rejects text that is not UTF-8 too (`ProtoAgreement.InvalidTextDiffers`).
- Timestamps are unsigned but compared as signed: trace and session events
  bracket their spans exactly when their times do not straddle 2^63
  (`OtlpConvertProofs.TraceBracketsIff`, `OtlpConvertProofs.SessionOpensIff`).
- A parent reference dangles when the parent passed the first phase but was
  rejected by the second (`OtlpConvertProofs.ParentResolvesIff`).
- Go's quoting uses escapes TOML lacks: `\a` and `\v`, and in TOML v1.0.0 also
  `\x`. The decoder at the version in `go.mod:6` reads TOML v1.1.0, where a command
  fails to read back exactly when it holds a bell or a vertical tab, and its install
  is then refused (`CodexQuote.QuoteReadsBack`, `CodexQuote.QuotableIff`,
  `CodexInstallLaws.UnquotableIsRefused`).
- When a config does not end its last line, installing lends it a newline, which an
  uninstall takes back. Text that the user has added behind the blocks then joins
  the last line: a table header can end up in a comment,
  and its entries go to what stands before (`CodexUserLines.HeaderJoinsComment`;
  the exact condition is in `CodexUserLines.LateTextKeptIff` and
  `CodexUserLines.LinesKeptIff`).
- A preview made before the workspace is bound can pass an event that no longer
  fits once it is (`SyncPacker.BindingCanOverflow`). From then on every invocation
  fails in its preview and uploads nothing at all (`SyncRun.Run`).
- Logical span keys are joined with NUL bytes that their texts may hold: a row can
  be shadowed by a row of another session when both hold some
  (`Coalescing.NulsCollide`).

## Model

Names are qualified by module, and by class for methods of a class.

| member | source | states |
|---|---|---|
| `ClaudeSettings.CountKeyIn` | integrations/claude/hooks.go:316-336 | the recursive count of a key is the number of fields of that name anywhere in the tree, whatever order fields are visited in |
| `ClaudeSettings.ScanEvent` | integrations/claude/hooks.go:386-428 | a scan succeeds exactly on well-shaped entries without misplaced ownership keys, and then counts exact groups, handlers running the command, and historical groups |
| `ClaudeSettings.LegacyInventory` | integrations/claude/hooks.go:342-380 | succeeds exactly when every ownership key in the hooks table belongs to a historical group of a managed event, and then lists each of them |
| `ClaudeSettings.ReadLegacy` | integrations/claude/hooks.go:458-489 | classifies the ownership keys as none, one exact historical set (with or without SessionEnd) under one command, or foreign |
| `ClaudeSettings.Settings.MergeFreshInstall` | integrations/claude/hooks.go:542-648 | accepts exactly the settings without clashes, foreign keys or a disallowed historical command; the new settings are the specified ones, and a refusal changes nothing |
| `ClaudeSettings.Settings.ValidateOwnedState` | integrations/claude/hooks.go:512-540 | true exactly when each managed event has one exact group, one handler running the command, and no ownership key is left |
| `ClaudeSettings.Settings.MergeOwnedUninstall` | integrations/claude/hooks.go:650-680 | accepts exactly owned settings, removes exactly the managed groups, drops emptied events and an emptied hooks table; a refusal changes nothing |
| `ClaudeSettings.Settings.MergeLegacyUninstall` | integrations/claude/hooks.go:711-749 | removes exactly the historical groups of the set and prunes what that empties |
| `ClaudeMergeProofs.ManagedGroupFacts` | integrations/claude/hooks.go:240-257 | the written group passes the scan, carries no ownership key and runs the command exactly once |
| `ClaudeMergeProofs.InstallEstablishesOwnership` | integrations/claude/hooks.go:542-648 | every accepted merge, fresh or migrating, ends in the state the ownership record vouches for |
| `ClaudeMergeProofs.InstallPreservesOthers` | integrations/claude/hooks.go:542-648 | an accepted merge keeps every other settings key, every unmanaged event, and within managed events every other group in order |
| `ClaudeMergeProofs.UninstallUndoesFreshInstall` | integrations/claude/hooks.go:650-680 | unmerging a fresh merge gives the original settings with empty managed arrays, and then an empty hooks table, dropped |
| `ClaudeMergeProofs.UninstallUndoesMigration` | integrations/claude/hooks.go:711-749 | migrating a historical install and then unmerging leaves what removing the historical install directly leaves, normalized |
| `ClaudeMergeProofs.RecordedCommandSuffices` | integrations/claude/hooks.go:491-510 | a merge accepted under the caller's migration option is accepted again under the command the pending manifest records |
| `ClaudeMergeProofs.OwnedIsNotLegacy` | integrations/claude/hooks.go:682-709 | owned settings are never taken for a historical install |
| `ClaudeMeaning.ManagedRunsAlone` | integrations/claude/hooks.go:252-278 | the group written is the one that matches everything and holds one handler, with the keys it needs, that runs the command |
| `ClaudeMeaning.OwnedMeans` | integrations/claude/hooks.go:512-540 | owned settings are those where each managed event runs the command once, in a group of its own, no other handler starts it, and no ownership key is left |
| `ClaudeMeaning.CandidateIsLegacy` | integrations/claude/hooks.go:430-439 | a historical group is exactly what the historical installer wrote for some command |
| `ClaudeMeaning.LegacyMeans` | integrations/claude/hooks.go:458-489 | a whole historical install is one such group of the same command in every event of one of the two sets, and no other ownership key |
| `ClaudeMeaning.FreshOkMeans` | integrations/claude/hooks.go:542-648 | a merge is accepted exactly when no handler of a managed event starts the command, or the historical one the caller names, and any ownership keys belong to a whole historical install of a command the caller vouches for |
| `ClaudeMeaning.InstallPuts` | integrations/claude/hooks.go:542-648 | in each managed event the groups become those before with the written group in the place of the historical one, or behind them; nothing else changes |
| `ClaudeMeaning.UninstallTakes` | integrations/claude/hooks.go:650-680 | one group that runs the command alone is taken out of each managed event, and the event with its last group; every other key, event and group stays |
| `ClaudeMeaning.UninstallStops` | integrations/claude/hooks.go:650-680 | then no managed event starts the command |
| `ClaudeMeaning.LegacyTakes` | integrations/claude/hooks.go:711-749 | of a historical install one group is taken out of each event of its set, and nothing else |
| `ClaudeTables.FreshDecodable` | integrations/claude/hooks.go:542-648 | a merge keeps settings to what the JSON reader can return: number grammar and nesting |
| `ClaudeTables.UninstalledDecodable` | integrations/claude/hooks.go:650-749 | so does removing managed or historical groups |
| `ClaudeInstaller.HookFiles.WriteManifest` | integrations/claude/hooks.go:1286-1312 | a new record replaces the expected one exactly when sidecar and settings are still those expected; an invalid record is refused unwritten |
| `ClaudeInstaller.HookFiles.RemoveManifest` | integrations/claude/hooks.go:1388-1406 | the record is removed exactly when it is the expected one and, with a snapshot, the settings are still those expected |
| `ClaudeInstaller.HookFiles.CommitSettings` | integrations/claude/hooks.go:1160-1183 | new settings are published exactly when settings and record are still those expected |
| `ClaudeInstaller.HookFiles.RecoverPending` | integrations/claude/hooks.go:877-937 | the writes and result of recovery: finish the close when the settings are the recorded result, make the merge again when they are the recorded start, refuse anything else |
| `ClaudeInstaller.HookFiles.Publish` | integrations/claude/hooks.go:1004-1025 | record, publish, close; and when the settings are lost, the guarded restoring or removing write |
| `ClaudeInstaller.HookFiles.ProceedInstall` | integrations/claude/hooks.go:940-1031 | the answer and the writes, in order, of an install that finds no pending change, whatever other programs do before each comparison; over an active record the answer is the verdict on the settings |
| `ClaudeInstaller.HookFiles.ProceedUninstall` | integrations/claude/hooks.go:1035-1126 | the writes, in order, of an uninstall that finds no pending change, whatever other programs do before each comparison |
| `ClaudeInstaller.HookFiles.Execute` | integrations/claude/hooks.go:940-1126 | a whole install or uninstall, recovery included, makes exactly the specified sequence of file states |
| `ClaudeRecovery.CrashAtomicity` | integrations/claude/hooks.go:877-937 | stopping any operation on any disk after any number of its writes leaves a disk that recovers either to where it started or to where it would have finished |
| `ClaudeRecovery.RecoveryIsTransparent` | integrations/claude/hooks.go:940-1126 | the next operation gives the same result and settled disk whether or not a pending change had been settled before it |
| `ClaudeRecovery.CrashesLinearize` | integrations/claude/hooks.go:877-1126 | any sequence of operations, each crashing anywhere or not, settles to some of those operations run completely in the same order, all uncrashed ones among them |
| `ClaudeRivals.TamperedIsRefused` | integrations/claude/hooks.go:877-937 | settings that match neither recorded digest are refused by every operation, and nothing is written |
| `ClaudeRecovery.InstallResult` | integrations/claude/hooks.go:940-1031 | a completed install leaves the merged settings and an active record |
| `ClaudeRecovery.UninstallResult` | integrations/claude/hooks.go:1035-1126 | a completed uninstall of owned settings leaves the unmerged settings and no record |
| `ClaudeRecovery.InstallThenUninstall` | integrations/claude/hooks.go:940-1126 | install then uninstall on settings free of ownership keys gives the original settings back, normalized, and no record |
| `ClaudeRecovery.InstallIsIdempotent` | integrations/claude/hooks.go:940-1031 | after a successful install another one for the same command succeeds and writes nothing |
| `ClaudeOutcomes.InstallDone` | integrations/claude/hooks.go:940-1031 | on any disk, recovery included, and whatever other programs write: an install that succeeds leaves settings that run the command once in each managed event, without ownership keys, and the active record of the command |
| `ClaudeOutcomes.UninstallDone` | integrations/claude/hooks.go:1035-1126 | likewise an uninstall that succeeds leaves readable settings without ownership keys, and no record |
| `ClaudeOutcomes.InstallOverRecordIff` | integrations/claude/hooks.go:980-988 | over an active record an install writes nothing, and succeeds exactly when the record is of that command and the settings run it once in each managed event, without ownership keys |
| `ClaudeOutcomes.InstallAfreshIff` | integrations/claude/hooks.go:989-1031 | without a record it succeeds exactly on a valid command and settings that accept it |
| `ClaudeOutcomes.UninstallIff` | integrations/claude/hooks.go:1035-1126 | an uninstall succeeds exactly when the settings are owned by the recorded command, or, without a record, when they hold no ownership keys or a whole historical install of a valid command |
| `ClaudeOutcomes.RecoveryKeepsPromise` | integrations/claude/hooks.go:877-937 | a recovery that succeeds leaves settings of the recorded result's digest and, of the pending record, the active record or none |
| `ClaudeOutcomes.FailureLeavesDisk` | integrations/claude/hooks.go:940-1126 | an operation by itself that fails leaves the disk as it was, or recovered; and writes nothing when it asks for another command than the pending install |
| `ClaudeRivals.TransactSucceedsIff` | integrations/claude/hooks.go:940-1126 | a transaction succeeds exactly when every comparison meets what the one before it left, and then ends as without others |
| `ClaudeRivals.TransactEnds` | integrations/claude/hooks.go:940-1126 | where a transaction ends for everything other programs may write before its comparisons |
| `ClaudeRivals.PendingLeftIff` | integrations/claude/hooks.go:1286-1312 | beside programs that write settings, a pending record is left exactly when the last comparison is of settings and finds others than it expects |
| `ClaudeRivals.RunReplacesOnlyRead` | integrations/claude/hooks.go:877-1126 | no operation, recovery included, replaces settings other than those it last read, whatever other programs write before its comparisons |
| `ClaudeRivals.RunCrashBesideOthers` | integrations/claude/hooks.go:877-1126 | an operation that writes, beside programs that write settings, stopped anywhere. After the recovery it may begin with: settling leads to where it would have ended alone when its record is pending and the settings are those read or to be published, and otherwise changes nothing. Within that recovery: settling leads to where the recovery ends alone when the settings are those it read or was to publish, and else there or nowhere |
| `ClaudeRivals.InstallYieldsToRival` | integrations/claude/hooks.go:1014-1022 | a fresh install that loses the settings leaves them to the others, and no record of itself |
| `ClaudeRivals.UninstallRestoresIff` | integrations/claude/hooks.go:1098-1110 | an uninstall that loses the settings restores the active record exactly when they are what it read again at the restoring write; otherwise its record stays pending |
| `ClaudeRivals.StrandedRecordBlocks` | integrations/claude/hooks.go:877-937 | that pending record makes every later operation refuse without writing, unless the others published the very bytes the uninstall would have |
| `TomlMask.OutsideStringMask` | integrations/codex/hooks.go:673-770 | the byte loop computes the mask of the state-machine reading of the text |
| `TomlTokens.MaskReadsTokens` | integrations/codex/hooks.go:673-770 | for every sequence of plain bytes, comments and the four kinds of string, the mask marks delimiters and plain bytes and no byte of content or comment, except quotes adjoining a multi-line closing delimiter |
| `TomlTokens.EveryTextHasTokens` | integrations/codex/hooks.go:673-770 | every text that ends outside strings is the text of some well-formed tokens, so the mask of all such text is determined |
| `TomlTokens.LexConcat` | integrations/codex/hooks.go:673-770 | text that ends outside strings is read the same in front of any other text, unless quotes meet at the seam |
| `CodexLines.SplitSourceLines` | integrations/codex/hooks.go:649-665 | the loop splits a text into its lines with their offsets |
| `CodexLines.SplitComment` | integrations/codex/hooks.go:1251-1278 | the loop splits a line at its first hash outside quotes |
| `CodexScanner.ScanSyntax` | integrations/codex/hooks.go:606-647 | reads headers, markers, metadata and code of every line under the mask of the whole text |
| `CodexScanner.AotRegionEnd` | integrations/codex/hooks.go:1106-1130 | a group ends after its last code line, before the next marker or foreign header |
| `CodexScanner.ScanManagedRegions` | integrations/codex/hooks.go:863-1005 | the marker and bounds passes compute the specified regions or conflict |
| `CodexScanner.FindClash` | integrations/codex/hooks.go:386-517 | a handler outside the managed group clashes exactly when it runs a command to be installed or has malformed Windows fields |
| `CodexScanner.AnalyzeConfig` | integrations/codex/hooks.go:386-517 | the whole analysis: decoding, scanning, the commands of every managed group, and clashes |
| `CodexOutcomes.ClashesMean` | integrations/codex/hooks.go:485-515 | on decoded tables: a config clashes exactly when some handler of a managed event has ambiguous or malformed Windows fields, or, outside the managed group, runs the command or its Windows form |
| `CodexOutcomes.BarredIsRefused` | integrations/codex/hooks.go:485-515 | a config with such a handler is refused as a conflict, unless the scan meets the forms left out |
| `CodexOutcomes.MarkersAccounted` | integrations/codex/hooks.go:863-1005 | a scan succeeds only when every marker is followed by its metadata and a group header of a managed event, and no metadata or marker stands elsewhere |
| `CodexOutcomes.CanonicalHoldsOnly` | integrations/codex/hooks.go:553-604 | a canonical group holds the empty matcher and one handler of type command with the commands read, and no other key |
| `CodexHeaders.HeaderReads` | integrations/codex/hooks.go:805-832 | a table or group header of bare keys, with any blanks inside and around the brackets and any comment behind, reads as its path |
| `CodexFacts.FactsConcat` | integrations/codex/hooks.go:606-647 | the lines of whole-line text and of what follows it are read independently, at any offset |
| `CodexFacts.BlockFacts` | integrations/codex/hooks.go:1154-1171 | what the scanner reads in a printed block, for every event, command and offset: marker, metadata, two headers, and code to its end |
| `CodexDocument.ScanFindsBlocks` | integrations/codex/hooks.go:863-1005 | scanning any text made of user text and printed blocks finds exactly the byte ranges of the blocks |
| `CodexRewrite.StripLeavesUser` | integrations/codex/hooks.go:1201-1207 | removing the ranges of the blocks leaves every byte of the user's and nothing else |
| `CodexRewrite.ReassertUpdates` | integrations/codex/hooks.go:144-172 | printing drifted groups anew changes their commands in place and no other byte |
| `CodexQuote.QuoteReadsBack` | integrations/codex/hooks.go:1154-1171 | a quoted command reads back as itself as a TOML basic string exactly when each of its characters prints as itself or has an escape in the version of TOML, v1.0.0 or v1.1.0; otherwise it does not read at all |
| `CodexQuote.QuotableIff` | integrations/codex/hooks.go:1154-1171 | in TOML v1.1.0 that leaves only the bell and the vertical tab |
| `CodexInstallProofs.InstallAppends` | integrations/codex/hooks.go:121-253 | installing into a config without managed blocks appends exactly the rendered blocks, when the decoder accepts the result, and otherwise refuses |
| `CodexInstallProofs.InstalledScan` | integrations/codex/hooks.go:863-1005 | scanning the installed text finds exactly the appended blocks' ranges |
| `CodexInstallLaws.InstallLeaves` | integrations/codex/hooks.go:121-253 | after any successful install every event has its commands and the stripped text is what it was |
| `CodexOutcomes.InstallRunsOnce` | integrations/codex/hooks.go:121-253 | after any install that succeeds, for every decoder, each managed event of the decoded text runs the command in exactly one handler, the only one of a group that is marked as the installer's; groups whose handler lists hold anything but tables are passed over, as in the source |
| `CodexInstallLaws.ReinstallIsNoChange` | integrations/codex/hooks.go:121-253 | after a successful install of any config without managed inline arrays or historical tables, and whatever the decoder makes of it, installing a second time returns the same text |
| `CodexInstallLaws.UninstallForgetsInstall` | integrations/codex/hooks.go:279-320 | for every such config and every decoder, an uninstall after an install answers exactly what an uninstall before it would have |
| `CodexInstallLaws.UninstallRestores` | integrations/codex/hooks.go:279-320 | install then uninstall on a config without managed blocks gives back every original byte |
| `CodexInstallProofs.UninstallLeavesUser` | integrations/codex/hooks.go:279-320 | whatever the user wrote between and after the blocks, an uninstall leaves exactly that, and refuses exactly when it does not recognize the config or the user's text by itself |
| `CodexUserLines.LinesKeptIff` | integrations/codex/hooks.go:1063-1071 | an uninstall keeps the user's lines exactly when no text follows a block that lent its newline to an unfinished line |
| `CodexUserLines.LateTextKeptIff` | integrations/codex/hooks.go:176-203 | text added to an installed config is left behind the original, as its own lines exactly when the original ended its last line |
| `CodexUserLines.HeaderJoinsComment` | integrations/codex/hooks.go:279-320 | one such input, for any decoder: a config that ends in a comment without a newline, and a table written behind the installed blocks; an uninstall that succeeds leaves the header inside the comment |
| `CodexUpdates.UpdateIsRead` | integrations/codex/hooks.go:386-517 | where the installer recognizes the blocks of a text, it recognizes other commands in their place, when the decoder accepts the text |
| `CodexUpdates.InstallReassertsDrift` | integrations/codex/hooks.go:121-253 | installing over a full set of blocks changes the commands in place and no byte of the user's, and refuses exactly when the config is not recognized or the decoder refuses the result |
| `CodexAppends.AppendIsRead` | integrations/codex/hooks.go:386-517 | blocks appended to a recognized config are recognized with the rest, when the decoder accepts the text |
| `CodexInstallLaws.UnquotableIsRefused` | integrations/codex/hooks.go:1154-1171 | installing a command with a character that Go escapes as the decoder's version of TOML cannot is refused |
| `CodexInstallLaws.InstallUpdatesAndAppends` | integrations/codex/hooks.go:121-253 | installing over any blocks changes their commands in place, appends one for every event without a block, touches no other byte, and refuses exactly when the config is not recognized or the decoder refuses the text with the commands changed or the blocks appended |
| `CodexFile.ConfigFile.Install` | integrations/codex/hooks.go:121-253 | an empty command is refused unread; otherwise the file ends up with the specified text, or unchanged on a refusal or when nothing differs |
| `CodexFile.ConfigFile.Uninstall` | integrations/codex/hooks.go:279-320 | the file ends up with the specified text, or unchanged on a refusal, when absent or when nothing is managed |
| `TextEdits.ApplyTextEdits` | integrations/codex/hooks.go:1209-1232 | succeeds exactly when the edits are in bounds and disjoint, and then equals the simultaneous splice of gaps and replacements in text order |
| `TextEdits.StrippingUndoesInsertions` | integrations/codex/hooks.go:1201-1232 | removing the shifted ranges of pure insertions gives the original text back |
| `TextEdits.SpliceIsRewriting` | integrations/codex/hooks.go:1209-1232 | applied from last to first, the edits give what rewriting from first to last gives |
| `SyncLog.PagePrefix` | internal/storage/db.go:549-584 | a prefix of a page is exactly the log's rows after the cursor through its last row |
| `SyncPacker.SanitizePage` | internal/hostedsync/sync.go:315-379 | redacts each row, failing closed on the first refusal: the event at each place has the row's identity and the engine's text for it |
| `SyncPacker.LargestFitting` | internal/hostedsync/sync.go:315-379 | the binary search finds the prefix that fits while one more event does not |
| `SyncPacker.BuildPending` | internal/hostedsync/sync.go:315-379 | the next batch, event by event the engine's texts for the log's rows after the cursor through its end, or which of the three failures applies and why |
| `SyncPacker.PackedBatch` | internal/hostedsync/sync.go:315-379 | a packed batch holds exactly the log's events after the cursor through its end, redacted, and a page prefix fits exactly when it is no longer than the batch |
| `SyncPacker.TallyMeans` | internal/hostedsync/sync.go:315-379 | the counts of a batch are of its events, of those the engine left as they were, of the others and of all fields redacted |
| `SyncPacker.FitsIff` | internal/hostedsync/sync.go:381-387 | events fit one request exactly when their texts, the commas between and the workspace label fit the room |
| `SyncPacker.FitsShrinks` | internal/hostedsync/sync.go:381-387 | a prefix of events that fit one request fits |
| `SyncPacker.BindingCanOverflow` | internal/hostedsync/sync.go:278-313 | an event that fits while the workspace is unbound stops fitting once it is bound exactly when its text leaves no room for the workspace label |
| `SyncProtocol.StepKeepsInv` | internal/hostedsync/sync.go:195-276 | every client, network, server, capture and crash step keeps the protocol's invariant |
| `SyncProtocol.ServerHoldsPrefixOnce` | platform/README.md:315-319 | after any run, the server holds the log's events in order, each once and each with redacted text of its own row, exactly through the durable cursor or the durable pending batch's end |
| `SyncProtocol.OnlyRedactedLeaves` | internal/hostedsync/sync.go:315-379 | every event of every request ever sent carries redacted text of the log's row with its identity |
| `SyncProtocol.SendsOnlyDurable` | internal/hostedsync/sync.go:195-276 | whenever a request may be sent, preview acceptance and the exact request are already on disk |
| `SyncProtocol.OutstandingIsPending` | internal/hostedsync/sync.go:394-417 | any request the server has not yet taken is byte for byte the durable pending batch |
| `SyncRun.PreviewRows` | internal/hostedsync/sync.go:278-313 | a preview succeeds exactly when every later row redacts and fits alone, and counts all of them whatever the page size |
| `SyncRun.PreviewRange` | internal/hostedsync/sync.go:278-313 | a preview adds the recorded pending batch to the rows after it, writing nothing |
| `SyncRun.SendBatch` | internal/hostedsync/sync.go:235-276 | a confirmed post moves the cursor to the batch's end and clears it; accepted plus remaining events is conserved |
| `SyncRun.Upload` | internal/hostedsync/sync.go:235-276 | an upload that ends without error accepts exactly the events that remained, under any weather and any concurrent capture; with fair weather and rows that fit it ends so |
| `SyncRun.Run` | internal/hostedsync/sync.go:136-276 | an invocation takes only protocol steps; a preview or unaccepted upload touches nothing; an inconsistent state file, or one row that cannot be sent, stops everything before any write; one that ends without error accepts exactly what it previewed and leaves the cursor at the high-water mark; and it does so when every row fits, every save is kept and every request answered |
| `SyncRun.ResumableMeans` | internal/hostedsync/sync.go:394-417 | a recorded batch is resumed exactly when it starts at the cursor, ends within the log, holds the workspace and number of events recorded, within the limits, and has the key of its body |
| `SyncRun.ServedIsReplied` | platform/README.md:315-319 | a delivery the server does not refuse is answered with a receipt for the whole pending batch, new or repeated |
| `SyncRun.World.PostPending` | internal/hostedsync/sync.go:419-466 | a post sends the durable pending batch and reports a receipt only when the server has issued one for its key |
| `SyncRun.World.SaveState` | internal/hostedsync/state.go:90-134 | a save either replaces the state file with the client's scope or leaves it as it was |
| `ProtoWire.VarintReadsBack` | internal/otlp/protowire.go:166-184 | every 64-bit value written as a varint reads back, whatever follows |
| `ProtoWire.FieldReadsBack` | internal/otlp/protowire.go:119-163 | every legal field reads back, whatever follows |
| `ProtoWire.FieldIsLocal` | internal/otlp/protowire.go:119-212 | bytes after a field do not matter, and every strict prefix of any readable field is an error, however it was written |
| `ProtoWire.FieldsReadBack` | internal/otlp/protowire.go:218-230 | a written list of fields reads back as the same list |
| `ProtoWire.FieldsOfConcat` | internal/otlp/protowire.go:218-230 | reading a concatenation gives the concatenated lists, or the second part's error |
| `ProtoWire.CutFieldIsError` | internal/otlp/protowire.go:218-230 | a message cut anywhere inside its last field is an error |
| `ProtoReader.Reader.ReadVarint` | internal/otlp/protowire.go:166-184 | the accumulating loop computes the varint's value and advances by its length |
| `ProtoReader.Reader.ReadFixed` | internal/otlp/protowire.go:187-197 | reads little-endian 32- or 64-bit numbers, or reports truncation |
| `ProtoReader.Reader.ReadLenDelim` | internal/otlp/protowire.go:200-212 | reads a length-prefixed payload inside the buffer, or reports truncation |
| `ProtoReader.Reader.Next` | internal/otlp/protowire.go:119-163 | reads one header and payload, refusing groups, unknown wire types and illegal field numbers |
| `ProtoReader.ReadFields` | internal/otlp/protowire.go:218-230 | the field loop hands out exactly the fields of the message and ends inside the buffer |
| `ProtoReader.AppendVarint` | internal/otlp/protowire.go:239-245 | appends the varint of the value |
| `ProtoReader.AppendLenDelim` | internal/otlp/protowire.go:253-264 | appends a field that reads back as the payload |
| `ProtoReader.AppendVarintField` | internal/otlp/protowire.go:267-270 | appends a field that reads back as the number |
| `ProtoReader.AppendFixed64` | internal/otlp/protowire.go:273-278 | appends a field that reads back as the 64-bit number |
| `ProtoValues.TreeDecodes` | internal/otlp/proto.go:481-550 | the protobuf form of every attribute tree decodes to its meaning exactly when its messages nest within the limit, and otherwise to the depth error |
| `ProtoValues.PairsDecode` | internal/otlp/proto.go:578-602 | key lists, repeated keys included, decode to their entries under the same condition |
| `ProtoValues.LastPairWins` | internal/otlp/proto.go:578-602 | of pairs with one key, the last gives the entry |
| `ProtoMessages.AnyMeans` | internal/otlp/proto.go:481-550 | a value message of any fields decodes exactly when each field alone does, and then to what its last field that holds a value says |
| `ProtoMessages.PairMeans` | internal/otlp/proto.go:447-476 | a pair of any fields decodes exactly when its keys and values do, and then to the last key and the last value |
| `ProtoMessages.ListsSkipOthers` | internal/otlp/proto.go:552-602 | arrays and key lists decode as if the fields they do not know were absent |
| `ProtoDecoder.DecodeAnyValue` | internal/otlp/proto.go:481-550 | the loop over fields decodes the value with later fields winning, at every depth |
| `ProtoDecoder.DecodeArrayValue` | internal/otlp/proto.go:552-576 | the loop decodes the array's values in order |
| `ProtoDecoder.DecodeKeyValues` | internal/otlp/proto.go:578-602 | the loop enters the pairs in order |
| `ProtoDecoder.DecodePair` | internal/otlp/proto.go:447-476 | the loop reads key and value, later fields winning |
| `ProtoJson.DecimalReadsBack` | internal/otlp/types.go:207-326 | every signed 64-bit number written in decimal parses back |
| `ProtoJson.NodeDecodes` | internal/otlp/types.go:163-326 | what every attribute tree's JSON form decodes to: the meaning of the tree with its text repaired, when its doubles are finite |
| `ProtoSpellings.NumberMeans` | internal/otlp/types.go:190-205 | a bare number, by itself or under intValue, is the integer when it spells one of 64 bits, just as its string form is, and otherwise its double |
| `ProtoSpellings.ParsedIsSpelled` | internal/otlp/types.go:190-205 | a number spells a 64-bit integer exactly when it is that integer's decimal, or minus zero |
| `ProtoSpellings.MeansIff` | internal/otlp/types.go:163-326 | the decoder accepts exactly the spellings of a value: plain strings, booleans, numbers, null and arrays, and the object forms with repeated keys, null members, elements for values and unknown members beside them |
| `ProtoSpellings.SpellingsAgree` | internal/otlp/types.go:163-326 | any spelling decodes as the tree's JSON form does exactly when it spells the tree's meaning |
| `ProtoAgreement.JsonDecodes` | internal/otlp/types.go:163-326 | inside a request, the JSON form decodes exactly when its doubles are finite and it nests within encoding/json's limit |
| `ProtoAgreement.MendedIff` | internal/otlp/types.go:163-204 | repairing keeps the meaning of a tree exactly when every string and key its meaning holds is UTF-8 |
| `ProtoAgreement.JsonIsClean` | internal/otlp/types.go:424-432 | whatever the JSON decoder accepts is UTF-8, so the check of attribute text never rejects it |
| `ProtoAgreement.InvalidTextDiffers` | internal/otlp/proto.go:488-494 | at every depth, one byte that is no UTF-8 is kept by the protobuf decoder, for the sanitizer to reject, and replaced by the JSON decoder |
| `ProtoAgreement.DeepAttributeDiffers` | internal/otlp/protowire.go:22-28 | an attribute within the depth limit by itself is refused by the protobuf decoder, which counts the messages around it, and taken by the JSON decoder |
| `ProtoAgreement.DecodersAgree` | internal/otlp/types.go:163-326 | at every depth, both decoders give a tree's meaning exactly when it nests within both limits, counted with what is around it, its doubles are finite and the text its meaning holds is UTF-8 |
| `ProtoAgreement.AttributesAgree` | internal/otlp/proto.go:106-407 | for the attributes of a resource, a span or a span event in a request, the same with the depth each is read at, where the protobuf limit is the one that counts |
| `ProtoJsonDecoder.UnmarshalValue` | internal/otlp/types.go:163-204 | plain and object forms decode as specified |
| `ProtoJsonDecoder.DecodeOneof` | internal/otlp/types.go:207-326 | the object form decodes by the one field it names |
| `EventLog.MergeOwnership` | internal/storage/event_batch.go:276-301 | joins claims field by field, refusing exactly when two set claims differ |
| `EventLog.CompareOwnership` | internal/storage/event_batch.go:303-326 | accepts exactly when no field has two different set claims |
| `EventLog.StoredOwnership` | internal/storage/event_batch.go:250-274 | one pass over the rows joins a session's claims, or finds that they conflict |
| `EventLog.Prepare` | internal/storage/event_batch.go:192-231 | finds the first fault of a batch, or tracks the joined claims of every session in it |
| `EventLog.ValidateOwnership` | internal/storage/event_batch.go:233-248 | compares every session of the batch with the stored claims |
| `EventLog.Log.AppendEventsAtomic` | internal/storage/event_batch.go:56-159 | the transaction commits exactly the specified rows and counts, and on any failure or cancellation the stored rows are as before |
| `EventStore.OwnedIffCompatible` | internal/storage/event_batch.go:276-301 | folding claims succeeds exactly when no two events of the session make different claims |
| `EventStoreProofs.FaultlessIff` | internal/storage/event_batch.go:192-231 | a batch has no fault exactly when its ids are set and distinct and no session's claims conflict |
| `EventStoreProofs.OwnersMatchIff` | internal/storage/event_batch.go:233-248 | the ownership check passes exactly when stored and incoming claims together do not conflict |
| `EventStoreProofs.AppendIff` | internal/storage/event_batch.go:76-159 | a batch is taken exactly when ids, claims, envelopes and cancellation allow it; it then adds its new events in order, and inserted plus existing is its size |
| `EventStoreMeaning.AppendMeans` | internal/storage/event_batch.go:76-159 | in terms of the events alone: a batch is taken exactly when its ids are named and distinct, no two events of a session, stored or new, make different claims, stored events come with their own envelope, and nothing cancels it; then exactly the events not stored are added, in order |
| `EventStoreMeaning.BrokenIsRefused` | internal/storage/event_batch.go:192-231 | a batch out of order is refused for its first event that breaks the order: a blank id, a repeated one or an ownership conflict |
| `EventStoreMeaning.StrangerIsRefused` | internal/storage/event_batch.go:233-248 | a batch in order that conflicts with stored claims is refused as an ownership conflict |
| `EventStoreMeaning.HaltIsRefused` | internal/storage/event_batch.go:101-159 | otherwise the first event that is cancelled at or comes with another envelope decides the refusal |
| `EventStoreProofs.AppendKeepsValid` | internal/storage/event_batch.go:76-159 | an append keeps ids unique, envelopes immutable and ownership single, and keeps earlier rows |
| `EventStoreProofs.RunsKeepOwnership` | internal/storage/event_batch.go:76-159 | any series of batches, accepted or refused, keeps that and never changes or removes a row |
| `EventStoreProofs.OneOwner` | internal/storage/event_batch.go:233-326 | in a store built by batches, two rows of a session that both claim a workstream, provider or native session claim the same one |
| `EventStoreProofs.ReplayInsertsNothing` | internal/storage/event_batch.go:76-159 | replaying a committed batch inserts nothing and changes nothing |
| `EventStoreProofs.LaterReplayInsertsNothing` | internal/storage/event_batch.go:76-159 | nor does replaying it after any later batches |
| `EventStoreProofs.AppendInParts` | internal/storage/event_batch.go:76-159 | a batch that is taken whole can as well be appended in two parts, with the same rows and counts |
| `TextOrder.LeastAssociates` | internal/observations/observations.go:176-187 | the choice between two field values is associative |
| `TextOrder.LeastMeans` | internal/observations/observations.go:176-187 | the choice is one of the two, empty only when both are, and no non-empty one of them comes before it |
| `TextOrder.BeforeMeans` | internal/observations/observations.go:176-187 | the order is the lexicographic one: a proper prefix, or a smaller character at the first difference |
| `SpanFacts.MergeCommutes` | internal/observations/observations.go:155-171 | merging facts is commutative |
| `SpanFacts.MergeAssociates` | internal/observations/observations.go:155-171 | merging facts is associative |
| `SpanFacts.MergeIdempotent` | internal/observations/observations.go:155-171 | merging facts with themselves changes nothing |
| `SpanFacts.FactsOfShuffle` | internal/observations/observations.go:200-238 | per-span and per-session facts are the same for every permutation of the log |
| `SpanFacts.FactsOfRepeat` | internal/observations/observations.go:200-238 | a log read twice gives the same facts |
| `SpanFacts.CollectFacts` | internal/observations/observations.go:200-248 | one pass indexes, for every span and every session, the merged facts of its reports |
| `SpanFacts.MergedMeans` | internal/observations/observations.go:155-187 | merged facts have the source of the strongest declared report, or of the strongest when none is declared, in each text field the first in order that is not empty, and usage when any report has it |
| `SpanFacts.StrongerMeans` | internal/observations/signal.go:42-53 | native is stronger than hook, hook than SDK, and SDK than import |
| `Coalescing.FindGroups` | internal/observations/observations.go:277-327 | the first pass finds, for every key, its strongest source and the least session id of the strongest rows |
| `Coalescing.Coalesce` | internal/observations/observations.go:277-327 | in place, every row gets its canonical session, and is shadowed exactly when a row of the same logical span has a strictly stronger source |
| `Coalescing.OutseenMeans` | internal/observations/observations.go:277-353 | a row free of NULs is shadowed exactly when a stronger source reports the same session, kind, name, tool and start millisecond, up to letter case |
| `Coalescing.QuotientMeans` | internal/observations/observations.go:347-353 | start milliseconds are rounded toward zero |
| `Coalescing.VerdictsIgnoreOrder` | internal/observations/observations.go:277-327 | the verdict on a row is the same for every permutation of the rows |
| `Coalescing.SharedSession` | internal/observations/observations.go:277-327 | all rows of a coalesce key record one canonical session |
| `Coalescing.SpanStaysVisible` | internal/observations/observations.go:277-327 | every logical span keeps a visible row |
| `Coalescing.KeysIdentify` | internal/observations/signal.go:230-235 | non-empty coalesce keys are equal only for equal provider and native session |
| `Coalescing.LogicalKeysIdentify` | internal/observations/observations.go:347-353 | a row whose texts hold no NUL byte has the logical span key of another exactly for equal session, case-folded kind, name and tool, and start millisecond |
| `Coalescing.NulsCollide` | internal/observations/observations.go:347-353 | with NUL bytes in both, a row can be shadowed by a row of another session |
| `ExceptionGroups.Absorb` | internal/observations/observations.go:359-432 | a group with one more member has the members' count, first and last start and least span id |
| `ExceptionGroups.GroupExceptions` | internal/observations/observations.go:359-432 | each key gives one group that describes exactly its failed, unshadowed rows, in the output order |
| `ExceptionGroups.OrderMeans` | internal/observations/observations.go:422-430 | groups come by falling count, then by workstream, then by hash |
| `ExceptionGroups.SignatureMeans` | internal/observations/observations.go:366-382 | the type is that of the facts, else of the row, else "error"; the message that of the exception, else of the status, else the row's name; and the facts are the span's, else the session's, else none |
| `ExceptionGroups.GroupsCountFailures` | internal/observations/observations.go:359-432 | each group counts exactly the failed, unshadowed rows of its workstream and hash, and each such row has one |
| `ExceptionGroups.CountsConserved` | internal/observations/observations.go:359-432 | group counts add up to the failed unshadowed rows |
| `ExceptionGroups.GroupsIgnoreOrder` | internal/observations/observations.go:359-432 | permuting the rows gives the same groups in the same order |
| `OtlpConvert.Scan` | internal/otlp/convert.go:81-130 | phase 1 finds each span's start and each trace's first session key |
| `OtlpConvert.SortEvents` | internal/otlp/convert.go:354-374 | the result is the same events, ordered by signed time, class and id |
| `OtlpConvert.Accumulators.Add` | internal/otlp/convert.go:225-307 | emits the events of a span and widens its trace and session |
| `OtlpConvert.Convert` | internal/otlp/convert.go:67-376 | the output is two events per accepted span, two per trace and one per session, in order |
| `OtlpConvertProofs.TraceBounds` | internal/otlp/convert.go:227-257 | a trace's bounds are the first start and last end of its accepted spans |
| `OtlpConvertProofs.OutputIs` | internal/otlp/convert.go:309-374 | which events are in the output, and no others |
| `OtlpReports.AcceptedMeans` | internal/otlp/convert.go:380-410 | a span is accepted exactly when its ids are hexadecimal of their lengths, its times parse and do not end before they start, and its attributes are sound |
| `OtlpReports.SpanIsReported` | internal/otlp/convert.go:211-304 | every accepted span has a started event at its start and an ended event at its end, failed exactly when the span is, both with its trace, its service and its session, and the first with its parent's started event |
| `OtlpReports.ReportIsOfSpan` | internal/otlp/convert.go:211-304 | every span event of the output is such an event of an accepted span |
| `OtlpReports.SessionKeyMeans` | internal/otlp/convert.go:197-208 | the session of a span is its own key, else the first key that its trace carries, else the trace |
| `OtlpReports.ParentsMean` | internal/otlp/convert.go:270-277 | a parent reference is to the started event of the last well-started span at the parent's place, and there is none without one |
| `OtlpReports.TracesAreReported` | internal/otlp/convert.go:309-345 | each trace with an accepted span, and no other, has a started event at its first start and a completed event at its last end, under the session of its first accepted span |
| `OtlpReports.SessionsAreReported` | internal/otlp/convert.go:309-345 | each session of an accepted span, and no other, has a started event at its first start, with the first service named |
| `OtlpReports.OutputIsOrdered` | internal/otlp/convert.go:354-374 | events come by signed time, then by class, then by id |
| `OtlpReports.EventsCountedBySpans` | internal/otlp/convert.go:309-374 | two events for each accepted span, two for each trace and one for each session of one |
| `OtlpConvertProofs.TraceBracketsIff` | internal/otlp/convert.go:354-374 | a trace's started event precedes and its completed event follows all its span events exactly when its times lie on one side of 2^63 |
| `OtlpConvertProofs.SessionOpensIff` | internal/otlp/convert.go:354-374 | a session's started event precedes all its span events exactly when its times lie on one side of 2^63 |
| `OtlpConvertProofs.ParentsArePlaced` | internal/otlp/convert.go:106-130 | a reference to an accepted parent, early or late in the request, is the parent's own started event |
| `OtlpConvertProofs.ParentResolvesIff` | internal/otlp/convert.go:270-277 | a span carries a parent reference exactly when a span at the parent's place started well, and it names an event of the output exactly when one was accepted there |
| `OtlpConvertProofs.SessionsAreTraceWide` | internal/otlp/convert.go:201-208 | spans without a session key take the first one in their trace, wherever it is in the request, and otherwise the trace is the session |
| `OtlpConvertProofs.EventsCounted` | internal/otlp/convert.go:309-374 | how many events there are |
| `Prompt.CutAt` | internal/launch/render.go:326-337 | the loop finds the longest prefix within the limit that ends before a character start |
| `Prompt.PrefixLength` | internal/launch/render.go:326-337 | a prefix of valid text loses less than one character to the limit |
| `Prompt.TruncatedFits` | internal/launch/render.go:307-324 | truncated text never exceeds the limit |
| `Prompt.TruncatedIsValid` | internal/launch/render.go:307-324 | valid UTF-8 stays valid |
| `Prompt.InstructionKept` | internal/launch/render.go:307-324 | the instruction section is kept whole whenever it fits next to the marker |
| `Prompt.RenderForAgent` | internal/launch/render.go:53-64 | the loop takes the first list cap whose rendering fits |
| `Prompt.LongestThatFits` | internal/launch/render.go:53-64 | the prompt is the rendering with the longest lists that fits, and only when none fits the shortest one cut |
| `Prompt.CutIsTight` | internal/launch/render.go:307-324 | cutting keeps a prefix, the marker and the tail from the last heading or nothing, and wastes less than four bytes of the limit |
| `Prompt.ClampIs` | internal/launch/render.go:289-301 | a valid field within the budget is kept, and a longer one becomes its longest valid prefix within it and three dots |
| `Prompt.RenderedValid` | internal/launch/render.go:66-147 | a prompt whose texts and fields are valid UTF-8 is valid |
| `Prompt.PromptGuarantees` | internal/launch/render.go:53-64 | the prompt is at most 12,000 bytes, valid when every text and field in it is, and one of its renderings whole or cut |
| `DenyPattern.MatchPath` | internal/redact/redact.go:275-317 | the strict pass over suffixes and the fallback pass compute the specified verdict |
| `DenyPattern.GreedyIsComplete` | internal/redact/redact.go:275-317 | the greedy search succeeds exactly when the parts occur in order without overlap |
| `DenyPattern.StarPatternMatches` | internal/redact/redact.go:275-317 | a pattern of literals and stars denies a path exactly when its literal parts occur in it in order |
| `DenyPattern.StrictMeans` | internal/redact/redact.go:275-298 | the strict pass answers with the first suffix behind a slash that the glob library matches or fails on |
| `DenyPattern.LiteralPatternMatches` | internal/redact/redact.go:275-317 | a literal pattern denies exactly the path it spells and every path that ends in it behind a slash |
| `DenyPattern.OtherPatternsAreStrict` | internal/redact/redact.go:275-317 | a pattern without a star, or with metacharacters beside it, denies exactly by the strict pass |
| `ShellQuote.FormatExecSpec` | internal/commands/flags.go:29-35 | the loop quotes every word and joins them |
| `ShellQuote.LineSplitsBack` | internal/commands/flags.go:13-35 | splitting the displayed line by POSIX quoting gives back exactly the command and arguments |
| `ShellQuote.PlainIsShown` | internal/commands/flags.go:13-27 | a word of letters, digits and the everyday punctuation is shown as it is |

## Left out

Claude hook installer
- Real files, temporary files, fsync, file modes, symlink checks, backups, the lock and its timeout, and dry-run: file states change in whole steps under an exclusive lock.
- Other programs act just before the installer compares the files, not between a recovery and the reading after it; the sidecar is its decoded record, so other bytes for the same record are no change.
- The text of error messages, and `InstalledHookEvents`, which only reads.

Codex hook installer
- Inline arrays of a managed event and the historical singleton tables: the model answers `Unmodelled` where the source takes those paths, so `findMatchingSquare`, `renderInline` and the legacy validation are absent.
- Bytes that are not valid UTF-8 in a command, which Go quotes with hexadecimal escapes.
- Backups, modes, the lock and the check that the file has not changed while it was edited.

Hosted sync
- HTTP, its limits and error bodies, retry delays, credentials, endpoint normalisation and the state file's format; a request that fails in any way is one that brings no receipt.
- The field-by-field redaction of an event: an engine either refuses an envelope or gives its text and a count.
- The server's quotas and validation are one free choice at each delivery between admitting a new batch and turning it away.

OTLP ingest
- The resource, scope, span and status decoders, which are field switches over the same reader, and the 32-bit counters in them.
- Case-insensitive field names of the JSON library, base64 and floating-point text: the latter two are parameters.
- Sanitising, capture tiers, token usage, span kinds and payloads in `Convert`; a span carries the verdict of its sanitising and its session key. Counts of rejected spans are not related to totals, as spans under a broken resource are reported in both phases.
- Ids of events in one millisecond: ids are what they are derived from.

Event store
- SQLite, its locking and busy retry, and marshalling: a transaction is one step that commits or rolls back. The single-event path, which has no ownership check, is not part of the model.

Observations
- Deriving a signal source and facts from a payload, fingerprints, and the templates of messages and frames: they are parameters or inputs.

Smaller cores
- The sections of `renderPrompt` are a parameter of `Prompt.RenderForAgent`, as the texts and clamped fields they consist of.
- Deny patterns with classes, escapes or question marks, the Windows retry, entropy scoring and regular-expression redaction.
- ShellQuote.LineSplitsBack: covers word splitting by the quoting rules; a line with anything else a shell interprets has no reading in the model.

Whole components
- Graph reduction, detection rules, the handoff read model, the trace materializer, the adapters, the web and command-line layers.
