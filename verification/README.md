# Verified models of Scryer's small algorithms

This project models the self-contained algorithms of Scryer whose correctness rests on an invariant, a measure or a
history, and proves what they promise. Each module follows one component; loops that update variables are methods
with invariants, objects that are updated in place are classes, and each method is proved against a function about
which the properties are then proved.

| file | component |
|---|---|
| `Asf.dfy`, `AsfStreams.dfy` (with `LittleEndian.dfy`) | the patcher that turns an ASF PCM stream into WAVE_FORMAT_EXTENSIBLE (ASF Specification, sections 3.1 to 3.3) |
| `Redact.dfy`, `Redaction.dfy` | redaction of credentials in proxy error text |
| `RemotePath.dfy`, `Remapping.dfy` | remote path mappings of download clients |
| `Tables.dfy` | foreign-key ordering of tables in a dump |
| `Wasm.dfy`, `WasmSections.dfy` | the custom section that carries a plugin descriptor: Rust writer, Python reader (WebAssembly Core Specification, sections 5.2.2, 5.5.2 and 5.5.3) |
| `Release.dfy`, `ReleaseOutcomes.dfy` | the release command, its dry-run cache and its tags, over many runs |
| `Authless.dfy` | the single-flight proof fetch of the web client, as interleaved steps |
| `Sessions.dfy`, `SessionEffects.dfy` | the cache of solved clearance sessions, against the history of all calls |
| `ApiKeys.dfy`, `ApiKeyResults.dfy` | reconciliation of development API keys with the key table |
| `Transfers.dfy` | acceptance of transfer snapshots under loss, duplication and reordering |
| `Json.dfy` | canonical JSON as a normal form (objects as in section 4 of RFC 8259) |
| `Sample.dfy` | the sampled content proof of a file |
| `Text.dfy`, `Options.dfy` | shared definitions |

The second file of a component restates its results in terms of the raw input (bytes, characters, paths, single calls),
without the definitions that the code's own steps are modelled by.

Verify everything with `dafny verify dfyconfig.toml`.

## Where code and expectation differ

The model follows the code. Where a natural expectation, or the code's own comment, is false, a lemma shows it or
states the exact condition:

- A zero-sized header object stops the ASF header loop from advancing (`Asf.ZeroSizedHangs`); `Asf.HangsExactlyWhen`
  gives the condition. A well-formed header, in which every object has at least 24 bytes and room for the fields that
  are read, never meets it (`Asf.WellFormedOutcome`).
- The folded normal form of a remote path is the lowercase of the other one exactly for Windows paths and for paths
  without uppercase letters (`RemotePath.LowercaseExactlyWhen`, `RemotePath.UnixKeepsCase`); for Unix paths both forms
  are the same.
- A Windows root `\` also matches UNC paths (`RemotePath.MatchingIsSegmentwise`).
- Release signatures with and without the breaking-API override can collide, through build metadata
  (`Release.SignatureCollisions`, `Release.SignatureAloneIsNotEnough`); only together with the next version do they
  tell the two apart.
- A proof that the web client serves from its cache does not match the cookie exactly when an answered fetch still
  awaits its body (`Authless.ServedProofMatchesCookie`), which takes a clock that is set back
  (`Authless.ClockSetBackServesWrongProof`).
- The retained progress of a transfer can depend on arrival order (`Transfers.ProgressCanDependOnOrder`), exactly when
  the condition of `Transfers.OrderDoesNotMatterAtAll` fails.
- The length limit of an API key label counts bytes, where its message speaks of characters
  (`ApiKeys.ShortLabelRefused`, with the condition in `ApiKeys.LabelLimit`).

## Model

| member | source | states |
|---|---|---|
| Asf.RewritePcmAsWaveExtensible | xtask/src/media_fixtures.rs:827-940 | On every file whose header loop does not come to a zero-sized object, the loop over the header ends, and with the six in-place writes and the splice gives the outcome that the scan of the header and the patch define, error by error. |
| Asf.HangsExactlyWhen | xtask/src/media_fixtures.rs:849-884 | The call hangs exactly when the header size is legal and the loop, stepping over objects that neither fail nor end the call, comes to such an object of size zero. |
| Asf.ZeroSizedHangs | xtask/src/media_fixtures.rs:849-884 | A concrete file of 54 bytes on which it hangs. |
| Asf.PatchInPlace | xtask/src/media_fixtures.rs:886-939 | Old values are all read before the first write, and every truncation or overflow error comes in source order; otherwise the result is the spliced file. |
| Asf.WellFormedOutcome | xtask/src/media_fixtures.rs:842-884 | For a well-formed file the call never hangs; it leaves the file alone exactly when some stream is extensible already, and otherwise the loop ends with the last file properties object and the last eligible stream. |
| Asf.RewrittenExactlyWhen | xtask/src/media_fixtures.rs:864-928 | A well-formed file is rewritten exactly when no stream is extensible, a file properties object and an eligible stream exist, and the file-size and header-size fields have room for 22 more. |
| Asf.RewriteKeepsObjects | xtask/src/media_fixtures.rs:849-937 | The output header walks, from offset 30 to exactly the old header size plus 22, over the same objects in the same order with the same GUIDs and sizes, only the target stream being 22 larger; the file-size field grew by 22; every other byte is the input byte, shifted after the splice, wherever the two patched objects lie relative to each other. |
| Asf.RewriteIsIdempotent | xtask/src/media_fixtures.rs:861-882 | After a rewrite of a well-formed file with any number of streams, a second call finds the rewritten stream extensible and changes nothing. |
| AsfStreams.OutcomeByStreams | xtask/src/media_fixtures.rs:842-928 | Every outcome on a well-formed file, by the fields of its objects: unchanged when some audio stream has format size at least 40, tag 0xfffe and sub-format 1; refused without file properties, or without an audio stream of format size 18, tag 1, more than 2 channels and more than 16 bits, or without room in the size fields; rewritten otherwise. |
| AsfStreams.TargetByStreams | xtask/src/media_fixtures.rs:849-937 | The target is the last such stream. The output has the same objects in the same order, later ones 22 further on; the target carries format size 40, tag 0xfffe, extension size 22, the old sample width, channel mask 0x3f and the PCM sub-format byte for byte; header, file and stream size grew by 22; every other byte is the input's. |
| AsfStreams.GuidsByBytes | xtask/src/media_fixtures.rs:828-839 | The three GUIDs the patcher looks for are exactly these sixteen bytes in the file. |
| AsfStreams.RefusalsAreTrue | xtask/src/media_fixtures.rs:843-871 | A refusal names a true fault: too short a file, a header size out of range, or an object that the loop comes to and that claims more than the header holds or lacks a field that is read. |
| Asf.PatchKeepsOtherBytes | xtask/src/media_fixtures.rs:895-937 | Every byte outside the six patched fields is found in the output at its old place, or 22 further on after the splice point. |
| Asf.ScanIsFold | xtask/src/media_fixtures.rs:849-884 | On a walkable header the loop is a left fold over the objects' verdicts that stops at the first extensible stream. |
| Asf.FoldFindsLast | xtask/src/media_fixtures.rs:850-884 | That fold ends with the last file properties object and the last eligible stream, unless some stream is extensible. |
| Asf.WalkMoved | xtask/src/media_fixtures.rs:852-884 | If every object arrives in the output, moved and grown as described, the output walk is the moved input walk. |
| Asf.OutputHeader | xtask/src/media_fixtures.rs:904-937 | The output has a well-formed header again, made of the moved objects. |
| LittleEndian.ApplyHolds | xtask/src/media_fixtures.rs:819-825 | Of several in-place writes to disjoint fields, each is found intact at the end. |
| LittleEndian.DecodeEncode | xtask/src/media_fixtures.rs:798-817 | Reading a little-endian field gives back the value that was written, for every width. |
| LittleEndian.EncodeDecode | xtask/src/media_fixtures.rs:798-817 | Writing a field that was read gives back its bytes. |
| LittleEndian.LeastSignificantFirst | xtask/src/media_fixtures.rs:798-825 | The byte at position i of a field is digit i of the value to the base 256. |
| Redact.SanitizeProxyError | crates/scryer-application/src/challenge_solver.rs:440-463 | The nested loops end on every text and produce the field-by-field redaction for all seven markers at once. |
| Redact.Sanitize | crates/scryer-application/src/challenge_solver.rs:441-462 | For any list of marker-like names: what the in-place search and replacement produce, pass by pass, is the simultaneous redaction; the unsearched length falls with every turn. |
| Redact.PassesCompose | crates/scryer-application/src/challenge_solver.rs:442-461 | A later pass neither undoes nor repeats an earlier one: redacting for some markers and then for others is redacting for all of them. |
| Redact.OnlyTheSetOfMarkersMatters | crates/scryer-application/src/challenge_solver.rs:442-444 | Order and repetition of the markers make no difference. |
| Redact.RedactionIsIdempotent | crates/scryer-application/src/challenge_solver.rs:454-459 | Redacting twice is redacting once. |
| Redact.EveryMarkerIsRedacted | crates/scryer-application/src/challenge_solver.rs:446-459 | In the result every occurrence of a marker, in whatever case, is followed by exactly REDACTED up to a delimiter or the end. |
| Redact.RedactionKeepsStructure | crates/scryer-application/src/challenge_solver.rs:446-459 | Delimiters and the fields between them stay in place; a field without a marker is unchanged, and one with a marker keeps its text up to the end of the first marker. |
| Redaction.FieldSpelled | crates/scryer-application/src/challenge_solver.rs:442-462 | Redaction spelled out: the text up to the first of the four cut characters is kept when none of the seven markers stands in it in any case, else up to the end of the marker that ends first, with REDACTED for the rest; the cut stays, and the text after it is redacted alike. |
| Redaction.SevenMarkersAreRedacted | crates/scryer-application/src/challenge_solver.rs:442-459 | In the result each of the seven markers, in whatever case, is followed by REDACTED and then a cut character or the end. |
| RemotePath.RemapRemotePath | crates/scryer-application/src/download_client_path_mappings.rs:102-149 | The path is trimmed; the loop with its running best match then selects the first of the longest matching mappings and rebases what is left of the path. |
| RemotePath.RebaseToLocalRoot | crates/scryer-application/src/download_client_path_mappings.rs:405-424 | Pushing segment after segment yields the local root followed by the ordinary segments, or nothing when a `..` occurs. |
| RemotePath.CollectMappings | crates/scryer-application/src/download_client_path_mappings.rs:45-96 | Over the configuration lines, blank ones skipped: all lines are accepted and their mappings, with pairwise distinct keys, are returned in order; or the loop stops at the first line that is refused, with its reason, or that repeats the key of an earlier one. |
| RemotePath.CollectedFromParser | crates/scryer-application/src/download_client_path_mappings.rs:75-92 | Every collected mapping has the two normal forms of one remote root in its own style. |
| RemotePath.DuplicateKeyIsInjective | crates/scryer-application/src/download_client_path_mappings.rs:29-31 | The textual key of the duplicate check identifies style and root. |
| RemotePath.FoldedIsFoldOfJoined | crates/scryer-application/src/download_client_path_mappings.rs:247-331 | For every path the matching form is the case-folded joining form (for Windows paths; for Unix paths the two are equal). |
| RemotePath.LowercaseExactlyWhen | crates/scryer-application/src/download_client_path_mappings.rs:247-331 | The matching form is the lowercase of the joining form exactly for Windows paths and for paths without uppercase letters. |
| RemotePath.UnixKeepsCase | crates/scryer-application/src/download_client_path_mappings.rs:249-250 | A Unix path for which it is not. |
| RemotePath.NormalFormsAreIdempotent | crates/scryer-application/src/download_client_path_mappings.rs:261-331 | At a fixed style both normal forms are fixed points of normalizing. |
| RemotePath.NormalShape | crates/scryer-application/src/download_client_path_mappings.rs:279-331 | A normal form is a prefix of the drive, UNC or root kind followed by non-empty segments joined by single slashes. |
| RemotePath.LengthCutAgrees | crates/scryer-application/src/download_client_path_mappings.rs:333-369 | Whenever the folded strip succeeds, the strip by length succeeds too, and its suffix folds to the folded suffix: the failure branch cannot be reached. |
| RemotePath.FoldedMatchDecides | crates/scryer-application/src/download_client_path_mappings.rs:116-135 | A mapping the parser produced applies exactly when style and folded root match. |
| RemotePath.EquallyLongRootsAreEqual | crates/scryer-application/src/download_client_path_mappings.rs:137-143 | Two matching roots of one length are the same root. |
| RemotePath.UsesLongestMatch | crates/scryer-application/src/download_client_path_mappings.rs:114-148 | With distinct keys the mapping used is the one matching mapping with the longest root, and none is used only when none matches. |
| RemotePath.RemapIgnoresOrder | crates/scryer-application/src/download_client_path_mappings.rs:102-149 | With distinct keys the result does not depend on the order of the list. |
| RemotePath.RemappedStaysBelowLocalRoot | crates/scryer-application/src/download_client_path_mappings.rs:405-424 | A remapped path is the local root followed only by segments of the suffix that are non-empty and neither `.` nor `..`. |
| RemotePath.RefusedExactlyForParentSegments | crates/scryer-application/src/download_client_path_mappings.rs:411-421 | The rebase is refused exactly when the suffix has a `..` segment. |
| Remapping.OrdinaryArePushed | crates/scryer-application/src/download_client_path_mappings.rs:410-423 | Ordinary segments are all appended to the local root in their order, with one slash between unless the root ends in one. |
| Remapping.DotsAreDropped | crates/scryer-application/src/download_client_path_mappings.rs:411-414 | A `.` segment anywhere in the suffix makes no difference. |
| Remapping.OnlySegmentsCount | crates/scryer-application/src/download_client_path_mappings.rs:406-413 | Repeated and outer slashes make no difference, and without segments the local root is left. |
| Remapping.OneMapping | crates/scryer-application/src/download_client_path_mappings.rs:111-148 | With one mapping, a path of the root's style whose prefix and segments begin with the root's, up to what matching ignores, becomes the local root with the remaining segments in their own case; any other path is not mapped. |
| Remapping.ManyMappings | crates/scryer-application/src/download_client_path_mappings.rs:137-148 | Of many mappings only the longest matching one counts. |
| Remapping.UnixPathsMove | crates/scryer-application/src/download_client_path_mappings.rs:111-148 | Absolute Unix paths, spelled out: what lies below the remote root moves below the local root. |
| Remapping.DrivePathsMove | crates/scryer-application/src/download_client_path_mappings.rs:279-331 | The same for paths on a drive with backslashes, the root's letter case ignored. |
| Remapping.SharePathsMove | crates/scryer-application/src/download_client_path_mappings.rs:286-300 | The same for network paths. |
| Remapping.LineSpelled | crates/scryer-application/src/download_client_path_mappings.rs:45-73 | A line, spelled out: remote root before the first `=>` without one final space, local root after it trimmed, or the reason for its refusal. |
| Remapping.LineWithoutArrow | crates/scryer-application/src/download_client_path_mappings.rs:46-56 | A line without `=>` is skipped when blank and refused otherwise. |
| Remapping.OneMoreLine | crates/scryer-application/src/download_client_path_mappings.rs:78-92 | An accepted line adds its mapping at the end, any other line adds nothing. |
| Remapping.AppliedExactlyWhen | crates/scryer-application/src/download_client_path_mappings.rs:151-163 | A download moves and is marked exactly when it has no marker and its trimmed directory is mapped; any other stays as it is. |
| RemotePath.RefusedWhicheverMatches | crates/scryer-application/src/download_client_path_mappings.rs:137-148 | If the longest match is refused for a `..`, every other matching mapping would be refused as well. |
| RemotePath.MatchingIsSegmentwise | crates/scryer-application/src/download_client_path_mappings.rs:333-348 | A root matches exactly the paths of its kind that begin with its segments; the one exception is the Windows root `/`. |
| RemotePath.CompletedDownload.ApplyMappings | crates/scryer-application/src/download_client_path_mappings.rs:151-163 | The trimmed directory is remapped and the marker added together, or neither. |
| RemotePath.CompletedDownload.MarkApplied | crates/scryer-application/src/download_client_path_mappings.rs:394-403 | The marker is appended unless it is there. |
| RemotePath.RemappedOnce | crates/scryer-application/src/download_client_path_mappings.rs:155-161 | A remapped download is never remapped again, by whatever mappings. |
| Tables.ParentsFirst | xtask-migrations/src/migrations.rs:1113-1135 | The loop that moves the first ready table from `remaining` to `ordered` computes the greedy ordering, or the tables left over. |
| Tables.FailsExactlyOnCycles | xtask-migrations/src/migrations.rs:1116-1131 | The ordering fails exactly when the references among the given tables contain a cycle, self-references included. |
| Tables.OrderIsTopological | xtask-migrations/src/migrations.rs:1116-1134 | A returned order is a permutation of the tables in which every table follows each listed parent. |
| Tables.StuckMeansCycle | xtask-migrations/src/migrations.rs:1122-1131 | From the tables left over on failure an actual cycle can be produced. |
| Tables.OrderedExcludesCycle | xtask-migrations/src/migrations.rs:1117-1134 | No cycle of references fits a valid order. |
| Tables.ParentsComeFirst | xtask-migrations/src/migrations.rs:1117-1134 | In a returned order each listed parent of a table, if it is among the tables, comes before it. |
| Tables.StuckRemaining | xtask-migrations/src/migrations.rs:1122-1131 | The tables named in the error are exactly those in some group of tables that all reference one of the group. |
| Tables.OrderIsLeast | xtask-migrations/src/migrations.rs:1111-1134 | For tables sorted by any strict order, the result is the lexicographically least of all valid orders: ties are broken by name. |
| Tables.OnlyTheSetOfReferencesMatters | xtask-migrations/src/migrations.rs:1117-1121 | Order and repetition of the dependency list do not affect the outcome. |
| Wasm.WriteLeb | xtask/src/main.rs:496-508 | The shifting loop appends the LEB128 form of the value. |
| Wasm.ReadLebLoop | scripts/materialize-builtins.py:399-410 | The loop reads the number and the offset after it, or fails on missing bytes and after six bytes. |
| Wasm.OrAddsSevenBits | scripts/materialize-builtins.py:407-410 | Kept by that loop: the value stays below two to the shift, so that or-ing seven more bits in at the shift adds them. |
| Wasm.ReaderInvertsWriter | scripts/materialize-builtins.py:399-410 | For every u32, the Python reader returns the value the Rust writer wrote, and the offset after it, whatever bytes surround it. |
| Wasm.EmbedDescriptor | xtask/src/main.rs:512-534 | The input is kept as a prefix and one custom section with name and payload is appended; other headers and oversized payloads are refused. |
| Wasm.ExtractDescriptor | scripts/materialize-builtins.py:413-437 | The walking loop returns what the recursive walk defines, with each of its failures. |
| Wasm.WalkExtends | scripts/materialize-builtins.py:418-435 | A walk that ends cleanly is not disturbed by bytes appended to the file: it continues with them where it ended. |
| Wasm.ExtractInvertsEmbed | xtask/src/main.rs:512-534 | For every component whose walk ends cleanly without a descriptor, embedding any payload and extracting returns exactly that payload. |
| Wasm.EmbeddingTwiceIsDuplicate | scripts/materialize-builtins.py:431-434 | Embedding a second time makes the extraction fail as a duplicate. |
| WasmSections.ExtractOfSections | scripts/materialize-builtins.py:413-437 | On any file made of a header and sections: the content of the one custom section named `scryer.plugin-descriptor.v1`, or the first fault in file order. |
| WasmSections.OtherSectionsArePassedOver | scripts/materialize-builtins.py:425-435 | Appending a custom section with any other text name, or a section with another id, to a file that is read to its end changes nothing. |
| WasmSections.WalkSection | scripts/materialize-builtins.py:418-435 | What one section does to the reader, whatever lies before and after it. |
| WasmSections.NotWasmExactlyWhen | scripts/materialize-builtins.py:414-415 | Exactly the files without one of the two eight-byte headers are refused as no WebAssembly. |
| WasmSections.CutOffSections | scripts/materialize-builtins.py:419-424 | A section without its size, or shorter than its size, is refused as such. |
| WasmSections.CutOffName | scripts/materialize-builtins.py:426-429 | A custom section shorter than its name is refused as such. |
| WasmSections.LebSpelled | xtask/src/main.rs:496-508 | The written bytes carry the value seven bits at a time, least significant first, the top bit set in all but the last, which is not zero unless it is the only one. |
| WasmSections.ReadsTerminated | scripts/materialize-builtins.py:399-410 | The reader takes any number of at most six bytes that ends without a top bit, and gives the value of its low bits. |
| WasmSections.UnterminatedIsInvalid | scripts/materialize-builtins.py:403-404 | Nothing else is read as a number. |
| WasmSections.EmbedRefusals | xtask/src/main.rs:513-533 | What is refused, and the section that is appended otherwise. |
| Release.Checkout.RunRelease | xtask-release/src/main.rs:3529-3970 | One invocation, stopped at any of its actions, changes head, tags and cache file as specified. |
| Release.Checkout.ValidateAndRecord | xtask-release/src/main.rs:3614-3878 | A dry run invalidates the cache before it validates and records success only at its very end. |
| Release.Checkout.RunValidation | xtask-release/src/main.rs:3720-3798 | The validations of the scope in their order; a failure yields no steps. |
| Release.Checkout.ReuseDryRun | xtask-release/src/main.rs:3641-3711 | When the recorded dry run is taken, when it is skipped, and when the run is abandoned. |
| Release.Checkout.BumpAndTag | xtask-release/src/main.rs:3882-3970 | From the re-check of the branch to the tag. |
| Release.EveryTagIsJustified | xtask-release/src/main.rs:3613-3711 | Over every sequence of runs, complete or stopped midway, with any commits in between: each step a tag's scope requires ran in that very run, or a passed dry run with the same override, version, latest tag and notes recorded it at that commit or at an ancestor that differs only in workflow files. |
| Release.RunsAreSound | xtask-release/src/main.rs:3529-3970 | Kept by every run: a usable cache file was written by a dry run that passed, and all tags so far are justified. |
| Release.ReuseIsVouchedFor | xtask-release/src/main.rs:3658-3705 | Reuse implies an earlier passed dry run that vouches for every required step. |
| Release.TagComesLast | xtask-release/src/main.rs:3882-3970 | Only a real run tags, at most its own new tag, after main was re-checked and, in full scope, the bumped crates were checked; a real run leaves the cache file alone. `ReleaseOutcomes.PassingRunTags` is the other half. |
| ReleaseOutcomes.PassingRunTags | xtask-release/src/main.rs:3882-3970 | A real run with a new tag and its notes, in which every action passes, ends with the tag `scryer-v` and the version, and with its entry in the log. |
| ReleaseOutcomes.PassingDryRunIsRecorded | xtask-release/src/main.rs:3837-3877 | A dry run with a new tag and its notes, in which every action passes, leaves a successful cache for its commit, version, tag and notes, and its entry in the log, and tags nothing. |
| ReleaseOutcomes.InterruptedDryRunLeavesNoCache | xtask-release/src/main.rs:3614-3636 | A dry run that gets as far as removing the old cache leaves a usable one exactly when it passes. |
| ReleaseOutcomes.TagNeedsItsActions | xtask-release/src/main.rs:3694-3970 | A tag needs the version bump and its commit, and before them the restored build, or a new build, the notes check and the prep commit; without a new build a recorded one was restored. |
| ReleaseOutcomes.RecordNeedsItsActions | xtask-release/src/main.rs:3614-3868 | A recorded dry run needs every one of its actions. |
| ReleaseOutcomes.NothingBeforePreflight | xtask-release/src/main.rs:3559-3591 | With an old tag, or when the checks before validation fail, nothing changes. |
| ReleaseOutcomes.PassedDryRunIsReused | xtask-release/src/main.rs:3641-3705 | After a dry run that passed, a real run for the same release at the commit it left tags without repeating any validation. |
| ReleaseOutcomes.EveryTagIsVetted | xtask-release/src/main.rs:3613-3970 | Over every sequence of runs: for every tag, each step that the changed paths need has passed, in that run or in an earlier dry run with the same override, version, latest tag and notes, at that commit or at an ancestor that differs only under `.github/workflows`. |
| ReleaseOutcomes.NeededAreRequired | xtask-release/src/main.rs:382-438 | The required steps by the changed paths: contract and hygiene always, the web validation unless all paths are documentation, the rest when some path is neither documentation nor web. |
| ReleaseOutcomes.DirtyRunsValidate | xtask-release/src/main.rs:3641-3657 | Without a clean tree, a readable successful cache and the builtins, every needed step runs in the run itself. |
| ReleaseOutcomes.ToolingChangesAreTested | xtask-release/src/main.rs:3679-3702 | A dry run made at another commit is reused only after the tooling's own tests and the hygiene checks have passed. |
| ReleaseOutcomes.RejectionsAreTrue | xtask-release/src/main.rs:2100-2144 | Each rejection reason names a true difference. |
| ReleaseOutcomes.SameSignatureSameRequest | xtask-release/src/main.rs:797-813 | At a fixed override, signatures are equal exactly when explicit version, or bump, are. |
| Release.AcceptedCacheMatches | xtask-release/src/main.rs:2095-2146 | No rejection reason exactly when the cache succeeded, agrees in all eight respects, covers the required steps and its builtins are there. |
| Release.ValidationRunsRequired | xtask-release/src/main.rs:3724-3798 | What the validation runs, with the preflight step, covers what the scope requires. |
| Release.SignatureCollisions | xtask-release/src/main.rs:797-813 | Signatures with and without the override are equal exactly when both versions are explicit and the one without carries the suffix as build metadata. |
| Release.SignatureAloneIsNotEnough | xtask-release/src/main.rs:806-812 | A concrete pair of arguments with one signature and different overrides. |
| Release.SignatureAndVersionFixOverride | xtask-release/src/main.rs:806-812 | Signature and next version together determine the override. |
| Release.FullExactlyForApplicationPaths | xtask-release/src/main.rs:420-438 | The scope is full exactly when some changed path is neither documentation nor web. |
| Release.ScopeIsMonotone | xtask-release/src/main.rs:382-438 | More changed paths never require fewer steps. |
| Authless.Client.GetProof | apps/scryer-web/lib/authless-web-client.ts:19-30 | A call is served from the cache, joins the pending fetch, or starts one. |
| Authless.Client.constructor | apps/scryer-web/lib/authless-web-client.ts:8-13 | A new page has neither a cached proof nor a pending fetch. |
| Authless.Client.OnResponse | apps/scryer-web/lib/authless-web-client.ts:34-39 | The arrival of a response stores its own cookie and leaves the proof alone. |
| Authless.Client.OnHeaders | apps/scryer-web/lib/authless-web-client.ts:40-44 | A refused response clears the cached proof and settles the fetch with nothing; any other goes on to the body. |
| Authless.Client.OnBody | apps/scryer-web/lib/authless-web-client.ts:44-50 | A valid body replaces the cached proof, any other clears it. |
| Authless.Client.OnFailure | apps/scryer-web/lib/authless-web-client.ts:51-54 | A failed request or body clears the cached proof and settles the fetch with nothing. |
| Authless.Client.OnFinally | apps/scryer-web/lib/authless-web-client.ts:25-27 | The pending fetch is given up only after it has settled. |
| Authless.StepKeepsInvariant | apps/scryer-web/lib/authless-web-client.ts:19-55 | Every step, whatever it does to the clock, keeps the invariant: one outstanding fetch, the cached proof from the response whose cookie is in the jar, or from an older one while an answered fetch awaits its body. |
| Authless.InvariantHolds | apps/scryer-web/lib/authless-web-client.ts:19-55 | The invariant holds in every state of every run from a new page. |
| Authless.StaleWhilePendingHolds | apps/scryer-web/lib/authless-web-client.ts:19-28 | While the clock does not run back, no cached proof is fresh during a fetch. |
| Authless.AtMostOneFetch | apps/scryer-web/lib/authless-web-client.ts:24-28 | In every interleaving, under any clock, at most one fetch is outstanding. |
| Authless.CallersShareTheFetch | apps/scryer-web/lib/authless-web-client.ts:9-13 | A call during a fetch starts no other one and joins that fetch exactly unless the cached proof is fresh, which a clock that never runs back rules out. |
| Authless.SettledResultStays | apps/scryer-web/lib/authless-web-client.ts:24-29 | A settled fetch keeps its result in every later state, so all who joined it get the same. |
| Authless.ServedProofMatchesCookie | apps/scryer-web/lib/authless-web-client.ts:9-22 | In every run, under any clock: a proof served from the cache comes from the response whose cookie is in the jar exactly when no answered fetch awaits its body; a clock that never runs back rules that out. |
| Authless.FetchedProofMatchesCookie | apps/scryer-web/lib/authless-web-client.ts:32-54 | Under any clock, the proof of the latest fetch, or of the one before while the latest has no answer yet, comes from the response whose cookie is in the jar. |
| Authless.ClockSetBackServesWrongProof | apps/scryer-web/lib/authless-web-client.ts:20-22 | The excluded case occurs: a run in which the clock is set back during a fetch and a stale proof is served beside a newer cookie. |
| Authless.CallSpelled | apps/scryer-web/lib/authless-web-client.ts:19-30 | A cached proof good for more than 15 seconds is served; otherwise the call joins the fetch in flight, or starts one. |
| Authless.FetchSpelled | apps/scryer-web/lib/authless-web-client.ts:32-54 | A valid body is cached and yielded; every other end of a fetch yields nothing and empties the cache. |
| Authless.FetchMoves | apps/scryer-web/lib/authless-web-client.ts:25-44 | A response brings its own cookie, an accepted one is read, a settled fetch finishes. |
| Authless.ServedProofWasReceived | apps/scryer-web/lib/authless-web-client.ts:20-22 | In every run, a proof served from the cache was received in a body, with an expiry more than 15 seconds ahead, and no fetch has ended since. |
| Sessions.SolvedSessionCache.SessionHeaders | crates/scryer-application/src/challenge_solver.rs:503-519 | A read returns what the full history of calls gives, and drops an expired entry. |
| Sessions.SolvedSessionCache.StoreSolution | crates/scryer-application/src/challenge_solver.rs:525-551 | The cache stays the one that the history determines; solutions without a cookie are not admitted. |
| Sessions.SolvedSessionCache.Invalidate | crates/scryer-application/src/challenge_solver.rs:554-563 | The same for dropping a session. |
| Sessions.SolvedSessionCache.constructor | crates/scryer-application/src/challenge_solver.rs:487-492 | A new cache is that of the empty history. |
| Sessions.RunAgreesWithHistory | crates/scryer-application/src/challenge_solver.rs:503-563 | After every run, what is cached under a key is the last word of the history, and what is not cached has no last word or an expired one. |
| Sessions.HistoryDecides | crates/scryer-application/src/challenge_solver.rs:482-563 | After every run of stores, reads and invalidations under a clock that never runs back, a read returns the headers of the last admitted store for that proxy and host if it is younger than the lifetime and not invalidated since, else nothing. |
| SessionEffects.OtherCallsDoNotMatter | crates/scryer-application/src/challenge_solver.rs:494-563 | A call for another proxy, or for another host up to ASCII case, a read, and a store without a cookie leave every read of this proxy and URL as it is. |
| SessionEffects.StoredIsRead | crates/scryer-application/src/challenge_solver.rs:494-551 | A solution with a cookie, stored for the same proxy and host, is what reads return during its lifetime, and nothing after it. |
| SessionEffects.InvalidatedIsGone | crates/scryer-application/src/challenge_solver.rs:553-562 | After an invalidation for the same proxy and host, and for a URL without a host, a read returns nothing. |
| SessionEffects.HeadersSpelled | crates/scryer-application/src/challenge_solver.rs:352-364 | A user agent that is not blank and fits in a header comes first, then the cookie header, if any. |
| SessionEffects.TextCookie | crates/scryer-application/src/challenge_solver.rs:369-374 | A cookie given as text is sent as it stands exactly when its part before the first `=` is a safe name and the rest has no line break. |
| SessionEffects.FieldCookie | crates/scryer-application/src/challenge_solver.rs:375-391 | A cookie given by fields is sent as trimmed name, `=` and trimmed value under the same condition. |
| SessionEffects.CookieHeaderGrows | crates/scryer-application/src/challenge_solver.rs:366-394 | Safe pairs are joined by a semicolon and a space in the order of the cookies; other cookies leave no trace. |
| Sessions.LastWordIsLastAdmitted | crates/scryer-application/src/challenge_solver.rs:525-563 | The history's last word is some session exactly when an admitted store of it is followed by no admitted store and no invalidation under that key. |
| Sessions.ReadsAreUnobservable | crates/scryer-application/src/challenge_solver.rs:514-517 | Dropping expired entries on reads cannot be observed by any later read. |
| Sessions.EverySessionCarriesCookie | crates/scryer-application/src/challenge_solver.rs:521-537 | After every run each cached session has a cookie header without line breaks; a user agent alone never gets in. |
| Sessions.SolutionCookieHeader | crates/scryer-application/src/challenge_solver.rs:366-394 | The loop collects the safe pairs in order, from strings and from objects, and joins them. |
| Sessions.CookieHeaderIsSafe | crates/scryer-application/src/challenge_solver.rs:366-401 | There is a cookie header exactly when some cookie yields a safe pair, and it holds no line break. |
| ApiKeys.SyncDevelopmentApiKeys | crates/scryer-application/src/api_keys.rs:218-319 | If any seed is refused, the refusal of the first such seed is returned and nothing is written; otherwise the table becomes the reconciled one. |
| ApiKeys.PrepareRecords | crates/scryer-application/src/api_keys.rs:223-294 | The loop over the seeds yields the prepared records with their lookup ids, or the refusal of the first seed that is refused. |
| ApiKeys.PrepareSeed | crates/scryer-application/src/api_keys.rs:227-293 | One turn of it: the checks in their order, each with its refusal, and the record, new or continuing the stored row. |
| ApiKeys.Store.UpsertEnvironmentApiKey | crates/scryer-infrastructure-identity/src/oauth/store.rs:90-124 | Row by row: only a user row turns the record down, and then nothing changes; otherwise the row is active with the record's owner, secret, label and expiry, keeps id, creation and last use if it existed, and all other rows are unchanged. |
| ApiKeys.Store.RevokeApiKey | crates/scryer-infrastructure-identity/src/oauth/store.rs:126-146 | Row by row: exactly the unrevoked rows with that id and owner get the revocation time and keep the rest, a time once set is never overwritten, all other rows are unchanged, and the result says whether there was one. |
| ApiKeys.Store.ListEnvironmentApiKeys | crates/scryer-infrastructure-identity/src/oauth/store.rs:77-88 | Exactly the environment rows, revoked ones included. |
| ApiKeys.Store.GetApiKeyByLookupId | crates/scryer-infrastructure-identity/src/oauth/store.rs:50-61 | The row that carries the lookup id, or nothing exactly when no row carries it. |
| ApiKeys.TakenExactlyWhen | crates/scryer-application/src/api_keys.rs:226-294 | The seeds are accepted exactly when each is acceptable on its own (key, label, owner, no user-managed row, same secret) and their lookup ids are distinct. |
| ApiKeyResults.FirstRefusal | crates/scryer-application/src/api_keys.rs:226-268 | The answer to the first seed with a fault, with the reasons in their order. |
| ApiKeyResults.NewKeysStartNow | crates/scryer-application/src/api_keys.rs:280-291 | A key that was not in the table starts with a new id, created now and never used. |
| ApiKeys.DeclaredKeysAreActive | crates/scryer-application/src/api_keys.rs:268-292 | Afterwards every declared key is active with the declared owner, trimmed label, expiry and secret. |
| ApiKeys.UndeclaredKeysAreRevoked | crates/scryer-application/src/api_keys.rs:296-317 | Every undeclared environment key is revoked, an earlier revocation time stays, every user-managed key is unchanged, and no key disappears. |
| ApiKeys.SyncIsIdempotent | crates/scryer-application/src/api_keys.rs:268-279 | The same seeds again are accepted and change nothing at all, at any later time and with any new ids on offer. |
| ApiKeys.KeysStayThemselves | crates/scryer-application/src/api_keys.rs:218-319 | Over every sequence of reconciliations ids stay unique, user-managed keys never change, and environment keys keep id, secret, creation and last use, also when dropped and declared again. |
| ApiKeys.UpsertWritesRecord | crates/scryer-infrastructure-identity/src/oauth/store.rs:94-105 | In its turn a prepared record is never turned down by the conditional upsert, and stands in the table as prepared. |
| ApiKeys.PrepareIsPrepared | crates/scryer-application/src/api_keys.rs:226-294 | The records of accepted seeds have distinct keys and ids, fit the rows they replace, and never take the id of another row. |
| ApiKeys.PreparedFromSeed | crates/scryer-application/src/api_keys.rs:252-293 | Each record is the one its own seed asks for, given the lookup ids before it. |
| ApiKeys.RevokeTouchesOne | crates/scryer-infrastructure-identity/src/oauth/store.rs:132-143 | Revoking by id and owner affects the one listed row. |
| ApiKeys.ParsedExactlyIfBuilt | crates/scryer-application/src/api_keys.rs:364-378 | The accepted key texts are exactly prefix, encoded lookup id, dot, encoded secret, and parsing returns the two parts. |
| ApiKeys.LabelLimit | crates/scryer-application/src/api_keys.rs:420-441 | Accepted labels have 1 to 120 characters; for labels without control characters the limit is in characters exactly unless at most 120 characters take more than 120 bytes, which ASCII labels never do. |
| ApiKeyResults.LabelSpelled | crates/scryer-application/src/api_keys.rs:420-441 | The padding goes; what is left is refused when it is empty, longer than 120 bytes, or holds a control character, in this order, and accepted otherwise. |
| ApiKeyResults.KeySpelled | crates/scryer-application/src/api_keys.rs:364-378 | `ska_`, a lookup id of 16 encoded bytes, a dot and a secret of 32 encoded bytes make a key. |
| ApiKeys.ShortLabelRefused | crates/scryer-application/src/api_keys.rs:428-433 | A label of 61 characters that is refused as too long. |
| Transfers.RetainedIsNewest | apps/scryer-web/lib/location-transfers.ts:78-109 | From an empty view, whatever is lost, repeated, reordered or reread: the view is empty exactly when nothing in scope arrived; otherwise one delivery wins, the retained content apart from progress is that delivery's, and no delivered (generation, revision) is above the retained one. |
| Transfers.SomeDeliveryWins | apps/scryer-web/lib/location-transfers.ts:86-98 | The winner: the first delivery with the newest stamp, or the last reread of that stamp. |
| Transfers.AtMostOneWins | apps/scryer-web/lib/location-transfers.ts:90-98 | There is never a second winner. |
| Transfers.OrderDoesNotMatter | apps/scryer-web/lib/location-transfers.ts:86-109 | All sequences that deliver the same snapshots in scope, in any order, with repetitions and rereads, retain the same content apart from progress, exactly when the newest stamp delivered stands for one content. |
| Transfers.OrderDoesNotMatterAtAll | apps/scryer-web/lib/location-transfers.ts:99-108 | They retain the same snapshot, progress included, exactly when in addition no delivered snapshot shows more progress than a newest one. |
| Transfers.WellStampedSuffices | apps/scryer-web/lib/location-transfers.ts:86-108 | Both conditions hold when stamps tell contents apart and progress follows the stamps. |
| Transfers.RetainedIsTop | apps/scryer-web/lib/location-transfers.ts:86-108 | The retained snapshot is a newest one delivered, and under the second condition shows exactly its progress. |
| Transfers.LedByTop | apps/scryer-web/lib/location-transfers.ts:86-108 | A newest snapshot that comes first is retained with its own progress. |
| Transfers.FirstProgressStays | apps/scryer-web/lib/location-transfers.ts:99-108 | Any snapshot that comes first leaves at least its progress. |
| Transfers.ProgressCanDependOnOrder | apps/scryer-web/lib/location-transfers.ts:99-108 | Two deliveries whose order shows in the retained progress. |
| Transfers.StrayDeliveriesLeaveNoTrace | apps/scryer-web/lib/location-transfers.ts:78-85 | Deliveries for another operation, title, page or request can be removed from any run without effect. |
| Transfers.DeliverySpelled | apps/scryer-web/lib/location-transfers.ts:72-109 | One delivery: it is taken exactly when it answers the shown operation, title, page and request and nothing is retained, or its stamp is newer, or it is a reread with the same stamp; the larger progress stays. |
| Transfers.NothingFallsBack | apps/scryer-web/lib/location-transfers.ts:86-109 | In every run, rereads included, stamp and progress never fall, and the display does not fall before completion. |
| Transfers.DisplayFollowsProgress | apps/scryer-web/lib/location-transfers.ts:111-123 | 100 percent is displayed exactly for a completed operation; before that the display is monotone in the progress. |
| Transfers.DisplaySpelled | apps/scryer-web/lib/location-transfers.ts:115-122 | Before completion the display is the basis points cut down to tenths of a percent, between 0 and 99.9. |
| Json.CanonicalizeJsonValue | xtask-release/src/main.rs:915-933 | Filling a sorted map and emptying it into one that keeps insertion order yields the canonical form. |
| Json.CanonIsCompleteNormalForm | xtask-release/src/main.rs:915-933 | At any depth, two values have equal canonical forms exactly when they have the same meaning, where an object is an unordered map and an array keeps its order. |
| Json.CanonIsIdempotent | xtask-release/src/main.rs:920-929 | Canonicalizing twice changes nothing, and the fixed points are exactly the values whose objects are sorted at every depth. |
| Json.CanonKeepsMeaning | xtask-release/src/main.rs:920-929 | No member is lost, added or changed. |
| Json.CanonIsCanonical | xtask-release/src/main.rs:921-929 | In the result every object, at any depth, has its keys in strictly ascending order. |
| Json.BelowSpelled | xtask-release/src/main.rs:921-925 | Keys ascend by their first differing code point, a key before its extensions. |
| Json.ItemsStay | xtask-release/src/main.rs:917-919 | Arrays keep length and order, their items in canonical form. |
| Json.MembersStay | xtask-release/src/main.rs:920-929 | With distinct keys, the canonical object holds exactly the members of the object, their values in canonical form. |
| Json.CanonicalIsUnique | xtask-release/src/main.rs:921-929 | Two sorted values with one meaning are the same value. |
| Json.MeaningOfMembers | xtask-release/src/main.rs:920-924 | With distinct keys the meaning of an object holds each key with its own value and nothing else. |
| Sample.SampledContentProofFromReader | crates/scryer-application/src/fs_integrity.rs:59-80 | Seeking and reading produce the proof over exactly the first and the last megabyte, or fail exactly when the file is shorter than the stated size. |
| Sample.ReadImportContentSample | crates/scryer-application/src/fs_integrity.rs:82-103 | One window is appended to the sample, or the read fails for lack of bytes. |
| Sample.Reader.Seek | crates/scryer-application/src/fs_integrity.rs:89-94 | Moves the position, also past the end. |
| Sample.Reader.ReadExact | crates/scryer-application/src/fs_integrity.rs:97-102 | Yields the next bytes and moves on, or fails when too few are left. |
| Sample.ObservedIsTwoWindows | crates/scryer-application/src/fs_integrity.rs:64-73 | The windows never overlap, hold every observed byte once and total min(size, 2 MiB). |
| Sample.ObservedSpelled | crates/scryer-application/src/fs_integrity.rs:14 | The windows are the first and the last 1048576 bytes. |
| Sample.ProofsMatchExactlyWhen | crates/scryer-application/src/fs_integrity.rs:75-79 | With an injective digest, proofs match exactly when sizes and both windows do. |
| Sample.SmallFilesMatchOnlyIfEqual | crates/scryer-application/src/fs_integrity.rs:64-73 | Up to 2 MiB a match means identical files. |
| Sample.ChangeIsNoticedExactlyWhen | crates/scryer-application/src/fs_integrity.rs:3-6 | A changed byte is noticed exactly when it lies in one of the windows. |
| Sample.GrowthIsNotSeen | crates/scryer-application/src/fs_integrity.rs:59-73 | Bytes beyond the stated size play no part. |
| Sample.VerifyContentProofs | crates/scryer-application/src/fs_integrity.rs:105-123 | A copy is accepted exactly when size, sample size and digest agree. |

## Left out

- Asf.RewritePcmAsWaveExtensible: requires that the header loop does not come to a zero-sized object, since a call that never ends has no result; `Asf.HangsExactlyWhen` covers those files. Reading and writing the file, and offsets that overflow the address space, are not modelled.
- Asf.RewriteKeepsObjects: speaks of well-formed headers, whose objects have at least 24 bytes and room for the fields that are read; other files are covered by the definition of the outcome only.
- Redact.SanitizeProxyError: characters stand for the text; the byte offsets of the original fall on the same boundaries, since markers and delimiters are ASCII.
- RemotePath.CollectMappings: takes the lines of the setting; reading the setting from the JSON configuration is not modelled.
- RemotePath.RemapRemotePath: works on characters, which decides as the byte counts do; local paths are those of a Unix host.
- The remapping of status roots, which applies the same function to each root.
- Tables.ParentsFirst: the wording of the error.
- Wasm.ExtractDescriptor: whether a section name is valid UTF-8 is a parameter; the JSON of the descriptor is not parsed.
- Release.Checkout.RunRelease: git, the validations, builds and file writes are actions that succeed or fail, with their results as inputs; the two parallel validations of the full scope are two outcomes; prompts, version parsing and arithmetic, and the push after the tag are left out. So are commits that others make during a run, and untracked files that lie in the tree while a dry run validates.
- Release.FullExactlyForApplicationPaths: speaks of the paths the classifier is given, as relative component lists; how they are produced is not part of the model.
- Authless.Client.GetProof: one page; other tabs sharing the cookie jar, and an expiry that is not a number, are left out.
- Sessions.SolvedSessionCache.SessionHeaders: URL parsing and the validity of header text are parameters; calls are atomic, as the mutex makes them.
- ApiKeys.SyncDevelopmentApiKeys: store failures midway and concurrent writers are left out; base64, the keyed hash and the user table are parameters, and new ids are assumed to be new.
- API key authentication, creation and listing.
- Transfers.RetainedIsNewest: progress is an integer, and everything acceptance does not look at is one abstract value.
- The per-title progress and the path and artwork helpers of the transfer view, which are single expressions.
- Json.CanonicalizeJsonValue: numbers and strings are kept as they are; printing is not modelled.
- Sample.SampledContentProofFromReader: the digest is a parameter, assumed injective where it says so; other I/O errors than missing bytes are left out.
