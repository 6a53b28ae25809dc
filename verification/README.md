# Static-layout host firmware updater, modelled in Dafny

This project models the static-layout PNOR updater of openpower-pnor-code-mgmt.
On a static-layout system the host firmware flash (PNOR) holds exactly one
image. The BMC-side updater:

- reads that image's version through the `pflash` tool;
- registers one activation object and one version object for it under an id
  derived from the version;
- marks that id as the functional image;
- can wipe the partitions flagged for reprovisioning (factory reset) or the
  GUARD partition, with the flash-access mediation daemon (hiomapd) suspended
  around the wipe.

Modules, in dependency order:

| file | module | models |
|---|---|---|
| wrappers.dfy | `Wrappers` | `Option` |
| text.dfy | `Text` | `std::string::find`, `find_first_of` and `find_first_not_of` as indices; `std::getline` splitting of a text into lines, with its inverse |
| partition_inventory.dfy | `PartitionInventory` | the `pflash -i` listing parser `getPartsToClear` |
| version_blob.dfy | `VersionBlob` | the byte-level VERSION partition decode (secure-boot container magic, 4096-byte header, NUL-terminated text) |
| flash_tool.dfy | `FlashTool` | `pflash` as a gateway returning (exit status, output); `pnorClear`; `getPNORVersion` |
| reset_engine.dfy | `ResetEngine` | `reset` and `GardResetStatic::reset` as event traces |
| key_order.dfy | `KeyOrder` | the order `std::map<std::string, …>` iterates in |
| associations.dfy | `Associations` | association edges and the split of the updater's edges into functional and other edges |
| item_updater_static.dfy | `ItemUpdaterStatic` | the activation engine: `processPNORImage`, `isVersionFunctional`, `updateFunctionalAssociation`, `freeSpace`, `freePriority`, `deleteAll`, `validateImage` |

How the outside world is represented:

- `pflash` is a function-valued field `Platform.pflash : Command -> ToolResult`.
- Whether the scratch directory can be created, and the bytes the VERSION read
  leaves in the scratch file, are also `Platform` fields.
- hiomapd suspend and resume are `Suspend` and `Resume` events. Each `pflash`
  run is an `Invoke(command, exit status)` event.
- `Version::getVersions` and `Version::getId` are function-valued fields of
  `VersionParser`, so every lemma holds for any parser.
- D-Bus objects are plain records. The updater's association edges are a
  sequence of `(kind, endpoint)` pairs.

Three behaviours of the code that a reader may not expect:

- A VERSION copy shorter than 4 bytes decodes to the empty text, not to its
  bytes. The 4-byte magic read fails, and the stream stays failed through the
  final `getline` (`VersionBlob.ShortImageReadsNothing`). A signed copy of at
  most 4096 bytes likewise decodes to the empty text.
- `activations.insert` and `versions.insert` do not overwrite an id that is
  already present. Processing an image whose id is already registered
  therefore keeps the old records. A complete version string still attaches
  priority 0 to the kept activation, even when that activation is Invalid
  (`ItemUpdaterStatic.RegistersActivation`). The invariant that holds is
  therefore "an Active image has priority 0", not "an image with a priority
  is Active".
- The exit status of the `pflash -i` listing run is ignored. Whatever output
  it produced is parsed.

## Model

| member | source | states |
|---|---|---|
| Text.Find | static/item_updater_static.cpp:151 | `find` gives no position exactly when the character is absent; otherwise it gives the position of its first occurrence |
| Text.FindNot | static/item_updater_static.cpp:167 | `find_first_not_of` gives no position exactly when every character is the skipped one; otherwise it gives the first other character |
| Text.FindIsFirst | static/item_updater_static.cpp:151 | any index holding the character, with none before it, is the one `find` returns |
| Text.FindNotIsFirst | static/item_updater_static.cpp:167 | any index holding another character, with only skipped ones before it, is the one `find_first_not_of` returns |
| Text.Lines | static/item_updater_static.cpp:145 | no line `getline` yields contains a newline; the split is pinned down by its round trips `Text.LinesOfUnlines` and `Text.UnlinesOfLines` |
| Text.LinesOfUnlines | static/item_updater_static.cpp:145 | splitting newline-joined lines that contain no newline gives back exactly those lines |
| Text.UnlinesOfLines | static/item_updater_static.cpp:145 | rejoining the lines of a text gives the text back, with a final newline added when it lacked one; nothing else is lost or added |
| PartitionInventory.ParseLine | static/item_updater_static.cpp:151-182 | a line yields an entry only if it has a `[` and an `F` at or after that `[`; the entry's ECC bit is whether that flag field holds an `E` |
| PartitionInventory.PartNameSound | static/item_updater_static.cpp:160-179 | an extracted name is the token after the first space run: non-empty, space-free, and followed by a space |
| PartitionInventory.PartNameComplete | static/item_updater_static.cpp:160-179 | whenever the line has the first-space, skip-spaces, token, space shape, that token is the name extracted |
| PartitionInventory.ParseLineExactly | static/item_updater_static.cpp:151-182 | a line yields `(name, ecc)` if and only if its flag field holds `F`, `ecc` says whether it holds `E`, and the line has the name shape around `name`; otherwise the line is skipped |
| PartitionInventory.EntryNameIsToken | static/item_updater_static.cpp:174-182 | every entry's name is non-empty and has no spaces |
| PartitionInventory.GetPartsToClear | static/item_updater_static.cpp:139-186 | a partition is in the result exactly when some line of the listing parses to it, and there is at most one entry per line; order is stated by `PartitionInventory.EntriesFollowLineOrder` |
| PartitionInventory.PartNamesAreTokens | static/item_updater_static.cpp:139-186 | every partition the listing names is a non-empty, space-free token |
| PartitionInventory.PartsOfListing | static/item_updater_static.cpp:139-186 | the entries of a listing built from newline-free lines are exactly the results of those lines, in order |
| PartitionInventory.EntriesOfLines | static/item_updater_static.cpp:145-184 | an entry is produced exactly when some line parses to it |
| PartitionInventory.EntriesFollowLineOrder | static/item_updater_static.cpp:145-184 | the entry of a line comes after the entries of the lines before it and before the entries of the lines after it |
| VersionBlob.UntilNul | static/item_updater_static.cpp:102 | the text read is a NUL-free prefix ending at the first NUL or at the end of the data |
| VersionBlob.CStringAtUnique | static/item_updater_static.cpp:102 | at a given offset at most one NUL-terminated text starts |
| VersionBlob.DecodeVersion | static/item_updater_static.cpp:67-102 | fewer than 4 bytes read as empty; after the magic `17 08 20 11` the text starts at offset 4096 (empty if nothing follows); otherwise it starts at offset 0; it runs to the first NUL or the end |
| VersionBlob.SignedRoundTrip | static/item_updater_static.cpp:94-102 | a NUL-free text placed after a 4096-byte signed header and a NUL decodes back to itself, whatever follows |
| VersionBlob.UnsignedRoundTrip | static/item_updater_static.cpp:94-102 | a NUL-free text not starting with the magic, placed at offset 0 and followed by a NUL, decodes back to itself whatever follows, provided the copy is at least 4 bytes long |
| VersionBlob.ShortImageReadsNothing | static/item_updater_static.cpp:94-102 | a two-byte, NUL-free copy decodes to the empty text, although reading it to the NUL would give both bytes |
| FlashTool.PnorClear | static/item_updater_static.cpp:118-134 | clearing runs `pflash` once on the named partition, in `-c` mode exactly when ECC is asked for, and records its exit status without acting on it |
| FlashTool.GetPnorVersion | static/item_updater_static.cpp:61-116 | no scratch directory means empty text and no `pflash` run; otherwise there is one VERSION read, a non-zero exit status gives empty text, and success gives the decoded bytes; the text never holds a NUL; the scratch directory is never left behind (corrected, see Findings) |
| FlashTool.GetPnorVersionAsWritten | static/item_updater_static.cpp:71-113 | as written, the scratch directory is left behind exactly when it was created and the VERSION copy failed |
| FlashTool.FailedReadLeavesScratch | static/item_updater_static.cpp:84-113 | a failed VERSION copy leaves the scratch directory as written, and the corrected read removes it with the same text and runs |
| ResetEngine.ClearBracket | static/item_updater_static.cpp:314-321 | the bracket with the resume guaranteed: exactly one suspend, first; one clear per partition in list order with its ECC mode, whatever earlier clears returned, up to the first clear that cannot be started; exactly one resume, last, also after such a throw; equal to the as-written trace with the lost resume put back (corrected, see Findings) |
| ResetEngine.ResetCandidates | static/item_updater_static.cpp:189-193 | the partitions a factory reset clears are exactly those some line of the listing output parses to, whatever the listing run's exit status |
| ResetEngine.Reset | static/item_updater_static.cpp:310-322 | a listing run that cannot be started throws before anything is suspended; otherwise the listing run comes first, with its exit status ignored, then the bracket over the partitions its output names, complete when every clear can be started, and ended by a resume even when a clear cannot be started (corrected, see Findings) |
| ResetEngine.GardReset | static/item_updater_static.cpp:361-369 | the bracket around a single ECC clear of GUARD; when that clear cannot be started, the suspend followed by the resume, which the code as written loses (corrected, see Findings) |
| ResetEngine.ClearsInsideBracket | static/item_updater_static.cpp:314-321 | inside a bracket every `pflash` run lies strictly between the suspend and the resume, and uses `-c` exactly for ECC partitions |
| ResetEngine.ClearLoop | static/item_updater_static.cpp:316-319 | the loop makes one clear per partition in order for exactly the leading partitions whose clear can be started, and throws exactly when some partition's clear cannot be started |
| ResetEngine.BracketAsWritten | static/item_updater_static.cpp:314-321 | as written, the reset throws exactly when some clear cannot be started, and then the trace holds no resume; without a throw it is the full bracket |
| ResetEngine.ThrowLeavesServiceSuspended | static/item_updater_static.cpp:314-321 | when the first clear cannot be started, the as-written trace is the suspend alone |
| ResetEngine.GardResetAsWrittenLosesResume | static/item_updater_static.cpp:361-369 | as written, a GUARD clear that cannot be started leaves the trace at the suspend alone, with the service never resumed |
| ItemUpdaterStatic.IsVersionFunctional | static/item_updater_static.cpp:324-327 | an id is functional exactly when it is the recorded functional id; whenever the updater carries a functional edge, the answer is yes exactly for the id that edge points at. `ItemUpdaterStatic.UpdateFunctionalAssociation` makes it hold for exactly the given id, and `ItemUpdaterStatic.FunctionalIsLastRegistered` makes it hold, after any run of processing, for exactly the most recent non-empty id |
| ItemUpdaterStatic.UpdateFunctionalAssociation | static/item_updater_static.cpp:354-359 | afterwards `isVersionFunctional(x)` holds exactly for the given id; the only functional edge points at it; the other edges and the records are unchanged |
| ItemUpdaterStatic.MapInsert | static/item_updater_static.cpp:283-302 | `std::map::insert` adds the key, keeps an existing value, and leaves other keys alone |
| ItemUpdaterStatic.AddActivation | static/item_updater_static.cpp:283-295 | a fresh id gets an activation with the given state, priority 0 exactly when Active, and the host inventory link exactly when Active; an existing id keeps its activation, except that an Active state gives it priority 0 |
| ItemUpdaterStatic.ProcessVersion | static/item_updater_static.cpp:239-307 | an empty id changes nothing; otherwise both maps gain exactly that id, other entries are untouched, and the id becomes functional |
| ItemUpdaterStatic.RegistersActivation | static/item_updater_static.cpp:248-295 | a fresh image is Active exactly when both version parts are non-empty, and only then has priority 0 and the host inventory link; an already-registered image keeps its activation, except for the priority |
| ItemUpdaterStatic.RegistersVersion | static/item_updater_static.cpp:297-302 | a fresh image gets a deletable host version record under its id with an empty file path; an existing record is kept |
| ItemUpdaterStatic.RegistersEdges | static/item_updater_static.cpp:267-280 | the active edge is added only for a complete version, and the updateable edge always; the one functional edge points at the image |
| ItemUpdaterStatic.ProcessPnorImage | static/item_updater_static.cpp:235-246 | a failed version read registers what an empty version string gives; a successful one registers the decoded text |
| ItemUpdaterStatic.Erase | static/item_updater_static.cpp:347 | an erase that goes ahead removes exactly that id from both maps; a refused one changes nothing |
| ItemUpdaterStatic.FirstActiveUnique | static/item_updater_static.cpp:342-349 | the first active activation in map order is unique |
| ItemUpdaterStatic.FindFirstActive | static/item_updater_static.cpp:342-349 | the scan finds nothing exactly when no activation is Active; otherwise it finds the first Active one in key order |
| ItemUpdaterStatic.FreeSpace | static/item_updater_static.cpp:338-352 | with no Active image it succeeds and changes nothing; otherwise it erases the first Active image in key order and returns the erase's outcome |
| ItemUpdaterStatic.FreePriority | static/item_updater_static.cpp:329-330 | the updater is unchanged |
| ItemUpdaterStatic.DeleteAll | static/item_updater_static.cpp:332-336 | the updater is unchanged |
| ItemUpdaterStatic.ValidateImage | static/item_updater_static.cpp:229-233 | every image is valid |
| ItemUpdaterStatic.InitialWellFormed | static/item_updater_static.cpp:235-307 | the empty updater satisfies the invariant: records paired and filed under their ids, Active images with priority 0 and the inventory link, at most one functional edge, pointing at the functional id |
| ItemUpdaterStatic.ProcessKeepsWellFormed | static/item_updater_static.cpp:235-307 | registering an image keeps that invariant |
| ItemUpdaterStatic.ProcessKeepsFiled | static/item_updater_static.cpp:283-302 | registering keeps activations and version records paired and filed under their own ids and paths |
| ItemUpdaterStatic.ProcessKeepsActiveReady | static/item_updater_static.cpp:267-295 | every Active image still has priority 0 and the host inventory link |
| ItemUpdaterStatic.EraseKeepsWellFormed | static/item_updater_static.cpp:347 | erasing keeps the invariant |
| ItemUpdaterStatic.FunctionalIsLastRegistered | static/item_updater_static.cpp:242-246 | after any run of processing, exactly the most recent non-empty id is functional; with none, the functional id is unchanged |
| ItemUpdaterStatic.ProcessAllKeepsWellFormed | static/item_updater_static.cpp:235-307 | any run of processing from a well-formed state stays well-formed |
| ItemUpdaterStatic.ReprocessSameVersion | static/item_updater_static.cpp:283-306 | processing the same image again leaves both maps and the functional id unchanged |
| ItemUpdaterStatic.RepeatedProcessingKeepsOneImage | static/item_updater_static.cpp:283-302 | however often the same flash is processed, the maps hold at most its one id |
| ItemUpdaterStatic.BootWithCompleteVersion | static/item_updater_static.cpp:248-307 | start-up on a fully readable flash gives one Active image with priority 0 and the inventory link, and the edges active, updateable, functional |
| ItemUpdaterStatic.BootWithoutExtendedVersion | static/item_updater_static.cpp:256-307 | start-up without an extended version gives one Invalid image with no priority and no links, and the edges updateable, functional |

## Left out

- The `pflash` subprocess plumbing (popen, fgets, pclose) and the formatting of
  its argument string. `pflash` is an abstract gateway per command; for the
  reset runs a separate `starts` input says whether a command can be launched
  at all. The shell
  pre-filter `grep ^ID | grep 'F'` is part of that gateway: the model parses
  whatever text arrives.
- FlashTool.GetPnorVersion: a `popen` failure during the VERSION copy throws
  out of `processPNORImage`; the model does not represent that throw, only
  launch failures of the reset runs.
- Filesystem work: creating and removing the scratch directory, and the stream
  mechanics. Whether the directory can be created, and the copied bytes, are
  inputs. A failure to remove the directory only logs; the model treats the
  removal as succeeding.
- Logging. Exit statuses stay visible in the `Invoke` events instead.
- D-Bus object construction: the `ActivationStatic`, `Version`, `Delete` and
  `RedundancyPriority` objects, and `createActivationObject` /
  `createVersionObject`. They are plain records; the delete interface is the
  `deletable` flag.
- The base updater's `createActiveAssociation`, `createUpdateableAssociation`,
  `updateFunctionalAssociation` and `erase` are not part of this model. The
  first two are modelled as appending one edge each; the third as replacing
  the one functional edge; `erase` as removing the id from both maps, with
  whether it goes ahead given as an input.
- ItemUpdaterStatic.Erase: any removal of the erased image's association
  edges (active, updateable, functional) done by the base updater's `erase`
  is not modelled; the model keeps the updater's edges unchanged.
- `Version::getVersions` and `Version::getId` are not part of this model.
  They are arbitrary functions.
- hiomapd suspend and resume are events only. What the daemon does is not
  modelled.
- image_verify.hpp (signature checking and file-descriptor and mapping
  wrappers) and the eMMC updater are not part of this model.
- FlashTool.Platform: `pflash` returns the same result every time it is given
  the same command. A tool whose result changes between runs is not modelled.
- ResetEngine.Reset: does not model what each clear does to the flash, only
  the order, commands and exit statuses of the runs.

## Findings

| source | as written | input that shows it | evidently intended | confidence | as-written member | corrected member |
|---|---|---|---|---|---|---|
| static/item_updater_static.cpp:310-322 | a `pflash` clear whose `popen` fails throws (lines 48-52) out of the clearing loop; nothing catches it, so the resume at line 321 is never reached and hiomapd stays suspended; `GardResetStatic::reset` (lines 364-368) has the same gap | any reset whose first clear cannot be launched, e.g. parts `[("HBEL", true)]`, or a GUARD reset whose clear cannot be launched (`ResetEngine.GardResetAsWrittenLosesResume`): the trace is `[Suspend]`; the corrected bracket is used by `ResetEngine.Reset` and `ResetEngine.GardReset` | hiomapd is resumed on every way out of the bracket | medium, not executed | ResetEngine.BracketAsWritten | ResetEngine.ClearBracket |
| static/item_updater_static.cpp:84-113 | a failed VERSION copy returns at line 87, before the scratch directory is removed at lines 105-113 | scratch directory created, `pflash -P VERSION -r` exits with 1: the directory is left behind | the scratch directory is removed on every way out once it was created | medium, not executed | FlashTool.GetPnorVersionAsWritten | FlashTool.GetPnorVersion |
