# Proofs about the initramfs and its shell preprocessor

This project models the parts of the repository that carry the most state, branching or
arithmetic, and proves what they are relied on for, for every input and every run.

- **zram claiming** (`init/src/zram`). `ZramProtocol` runs the claim protocol for any number of
  processes in any interleaving of their sysfs accesses and proves mutual exclusion over whole
  runs. `ZramKernel`, `ZramHint` and `ZramBatch` describe what one process sees while the others
  go on, and prove what the next-free hint and the multi-device claims guarantee. `ZramRefinement`
  proves that view to be one of the interleavings: a claim and a release are runs of the protocol,
  whatever the others do in between. `ZramClaim` is
  the code itself: structs, a global hint and output arrays updated in place, proved against
  those functions. `ZramSize` is the sizing arithmetic with the machine's integer widths.
- **The metash preprocessor** (`scripts/metash`). `Metash` is the streaming machine with its stack
  of blind flags, `MetashStack` its invariants, `MetashDocument` the nested documents with their
  recursive meaning, `MetashMeaning` the theorem that streaming computes that meaning, and exactly
  how far, `MetashVariables` what definitions and conditions mean, and `MetashReader` the reader as objects updated in place.
- **Growable strings and what is built on them** (`init/src/common`). `DynStr`, `StrSplit` (split
  and join), `Which` (the program search in one reused buffer), `FileRead` and `ProcRead` (chunked
  readers), `MountOpts` (parse and print) and `MountWords` (what each option word does), `FsPath` (normalisation and the downward walk).
- **The kernel command line** (`Argsplit`, `Cmdline`, `CmdlineRuns`, `CmdlineMeaning`,
  `CmdlineProcess`): the callback protocol, properties of whole argument lists, and what every
  argument says in terms of its words alone.
- **Boot phases and unmounting** (`BootLatch`, `Umount`): retry/continue/abort runs under every
  behaviour of the commands and the operator; the depth sort and why it respects nesting.

System calls, allocation results, the kernel, callbacks and the operator are parameters: functions
that may answer anything at any time. A claim "for every run" is a claim for all of those.

## Where the code differs from its evident intent

- metash accepts a second `elseif` in a block nowhere (`scripts/metash:338-355`): it is dropped
  while the block is hidden and refused while it is visible. `StreamedBlockAgreement` gives the
  exact condition under which a block of any shape still means what it says, `DocumentAgreement`
  that for whole documents, `ChainAgreement` spells it out for plain lines, and
  `SecondElseIfIsRefused` is the smallest counterexample. Conditions in skipped branches are still judged and can stop the run.
- The same-size claim of several zram devices stops its rollback at index 1
  (`init/src/zram/zallocate.c:330`), so a failure after a first success keeps the first device
  (`SameSizeKeepsTheFirst`, and `SameSizeOnOneDevice` for the smallest case).
- A reset refused in the middle of a claim leaves a device initialised with nobody holding it, and
  the batch reports -1 for it, not -20 (`ClaimEffect`, `AllOrNothing`, `NothingLeaks`).
- A forced release of a handle that was already released takes the device from its next holder
  (`ForcedSecondReleaseSteals`); `ReleaseHitsOwnerOnly` says exactly when that can happen.
- In the mount option table `async` and `sync` are swapped, and `move` is printed but not parsed
  (`init/src/common/fs/mount_opts.c:48, 167-168, 209`): `RoundTrip` says exactly which flag sets survive.
- Stripping the end of a string fails at a byte with the high bit set, since it is negative as a
  signed char (`RStripMeaning`, `CmdlineWords`).
- One mount that does not have the root as a prefix aborts the whole collection for unmounting
  (`CollectSucceeds`), and `/` has the depth of its own children: `RootOrder` says exactly when
  it is unmounted too early, `RootMayComeFirst` gives an example.
- `dynstr_data_init` leaves the recorded capacity at 0 although it allocates; the first append
  therefore reallocates (`DynStr.DynStr.constructor`).
- The product of device count and fraction in the autoswap size is an `unsigned` and can wrap;
  `AutoswapBudget` says exactly when the budget is kept.

## Model

| member | source | states |
|---|---|---|
| ZramProtocol.MutualExclusion | init/src/zram/zallocate.c:86-175 | in every interleaving of any number of claim, use and release sequences, no device is owned through two handles at once, whether held or in the middle of claim-reset-reclaim |
| ZramProtocol.HeldDevices | init/src/zram/zallocate.c:86-175 | after any run a device owned through any handle is initialised and was free before anybody started |
| ZramProtocol.EveryResetIsByTheOwner | init/src/zram/zallocate.c:99-139 | over a whole run each accepted reset of a device is issued by the process whose disksize write was the last one accepted, accepted writes hit unowned devices only, and devices in use beforehand stay initialised |
| ZramProtocol.NothingLeaks | init/src/zram/zallocate.c:86-229 | after any run the initialised devices are exactly those in use beforehand and those some handle owns; a failed claim leaves a device behind only through a refused reset |
| ZramProtocol.OthersKeepHandsOff | init/src/zram/zallocate.c:86-229 | no step of another process changes a claimed handle or un-initialises its device |
| ZramProtocol.StepKeepsInv | init/src/zram/zallocate.c:86-229 | every enabled step keeps the protocol invariant tying status bits, device state and the write history together |
| ZramProtocol.ReleaseHitsOwnerOnly | init/src/zram/zallocate.c:214-229 | an accepted release resets a device its caller does not own if and only if it is forced on a handle whose status bits are clear |
| ZramProtocol.ForcedSecondReleaseSteals | init/src/zram/zallocate.c:214-229 | a run from the very beginning in which one forced release of an already released handle lets two claims that returned 0 end up holding the same device |
| ZramKernel.ClaimEffect | init/src/zram/zallocate.c:86-175 | whatever other processes and the kernel do, a claim gains exactly its device if it returns 0 and nothing otherwise; it leaks that device if and only if it got as far as its reset and that was refused; no foreign device is ever reset |
| ZramKernel.ScanEffect | init/src/zram/zallocate.c:260-282 | a scan gains the device it reports or nothing, besides leaks |
| ZramKernel.NextFreeEffect | init/src/zram/zallocate.c:284-312 | the hinted search gains the device it reports or nothing, besides leaks, over both of its scans |
| ZramRefinement.ClaimIsARun | init/src/zram/zallocate.c:86-212 | the accesses of a claim, with any other processes running the protocol between any two of them, form a run of the protocol; the claim returns 0 if and only if that run leaves the handle held, leaks if and only if it leaves it stuck, and a device claimed that way is claimed through no other handle |
| ZramRefinement.ReleaseIsARun | init/src/zram/zallocate.c:214-229 | so does a release: without force it stops before the kernel, changing nothing, on a handle that is not claimed or is in use; otherwise the device is given back if and only if the reset is accepted, and it never is somebody else's |
| ZramRefinement.OthersRun | init/src/zram/zallocate.c:86-229 | nothing other processes do un-initialises a device this process has claimed or changes its handles |
| ZramRefinement.QuietIsDescribed | init/src/zram/zallocate.c:86-175 | the hypothesis of those results is met by a process on its own, with any refusals |
| ZramHint.ScanIsFirst | init/src/zram/zallocate.c:253-282 | with steady devices a scan succeeds if and only if the first device it cannot pass over is claimable, and returns it; -2 and -1 are characterised the same way |
| ZramHint.HintIsOnlyASpeedUp | init/src/zram/zallocate.c:284-312 | for every hint, size and device state, the hinted search succeeds whenever a plain scan from 0 would, with the same device or one at or after the hint, in spite of what a failed hinted scan leaks |
| ZramHint.FadingDevicesMayBeLost | init/src/zram/zallocate.c:284-312 | with devices that do not stay as they are, a hint can lose a device that a plain scan would have found |
| ZramBatch.AllOrNothing | init/src/zram/zallocate.c:342-371 | 0: as many distinct devices as sizes were gained; -1 if and only if nothing was gained; -20 if and only if one of this call's devices is still claimed; no foreign device is reset |
| ZramBatch.SameSizeKeepsTheFirst | init/src/zram/zallocate.c:314-340 | a failing same-size call keeps its first device claimed if it had got one; it is all-or-nothing if and only if the very first claim failed |
| ZramBatch.SameSizeOnOneDevice | init/src/zram/zallocate.c:330 | asked for two devices where there is one, the same-size call returns -1 and keeps that one |
| ZramBatch.BatchEffect | init/src/zram/zallocate.c:351-358 | the devices claimed by the loop are pairwise distinct and are exactly what was gained |
| ZramBatch.RollbackEffect | init/src/zram/zallocate.c:359-366 | a rollback touches only the devices it goes over and reports -1 if and only if all of them are free again |
| ZramClaim.Zram.ClaimDevice | init/src/zram/zallocate.c:152-175 | a handle without status bits goes through claim, reset, compression, reclaim; status bits, compression and world afterwards are stated exactly; a claimed handle is refused |
| ZramClaim.Zram.DoClaimDevice | init/src/zram/zallocate.c:86-97 | the status bits are set if and only if the disksize write was accepted |
| ZramClaim.Zram.DoReleaseDevice | init/src/zram/zallocate.c:24-34 | the status bits are cleared if and only if the reset was accepted |
| ZramClaim.Zram.ReleaseDevice | init/src/zram/zallocate.c:214-229 | unforced releases are refused on unclaimed (-2) and busy (-3) handles without touching the kernel |
| ZramClaim.Zram.ClaimFromIdentifier | init/src/zram/zallocate.c:177-212 | returns a new claimed handle if and only if the claim succeeded |
| ZramClaim.Zram.ClaimNextFreeStartFrom | init/src/zram/zallocate.c:260-282 | the search loop equals the recursive scan; only the given slot changes, and the hint becomes the identifier plus 1 modulo 256, only on success |
| ZramClaim.Zram.ClaimNextFree | init/src/zram/zallocate.c:284-312 | the hinted search in place; an occupied slot is refused with -6 and nothing changes |
| ZramClaim.Zram.RollBack | init/src/zram/zallocate.c:359-366 | the release loop equals the recursive rollback down to its last index |
| ZramClaim.Zram.ClaimSeveralVarsizeNextFree | init/src/zram/zallocate.c:342-371 | return code and world of the varsize loop, to which the all-or-nothing theorem applies; on success the array holds distinct claimed handles for the devices |
| ZramClaim.Zram.ClaimSeveralNextFree | init/src/zram/zallocate.c:314-340 | return code and world of the same-size loop, with the rollback bound it really has |
| ZramSize.SizeIsLeastPageMultiple | init/src/zram/data_types.c:111-124 | the byte size is the least page multiple not below the MiB size if and only if that multiple fits a size_t |
| ZramSize.RoundUpIsLeast | init/src/zram/data_types.c:111-124 | rounding up gives a page multiple that is not below the size and not above any other such multiple |
| ZramSize.AutoswapBudget | init/src/zram/autoswap.c:84-108 | all devices together stay within floor(memory/fraction) if and only if the product of count and fraction does not wrap or each device gets nothing; without wrapping they fall short by less than one MiB a device |
| MetashMeaning.StreamingIsMeaning | scripts/metash:640-742 | streaming the lines of a supported nested document emits the lines, with the variables in force at each, and leaves the variables and the error that the recursive meaning gives |
| MetashMeaning.CleanRuns | scripts/metash:640-742 | for documents with at most one elseif a block, the reader succeeds if and only if the meaning is error free and every condition judged in passing is acceptable |
| MetashMeaning.DocumentAgreement | scripts/metash:640-742 | for every document that means something without error, with any number of elseifs, the streaming reader agrees with the meaning after each of its items if and only if every block is readable when it is met, given that what stands inside the blocks is read as meant |
| MetashMeaning.StreamedBlockAgreement | scripts/metash:338-355 | a block with any bodies and any number of branches, met anywhere in a run, is read as meant if and only if: its first condition holds and what follows is acceptable; or its first elseif holds and is the only one; or neither does and dropping all further elseifs makes no difference to the meaning |
| MetashMeaning.BlockAgreement | scripts/metash:493-502 | the same on the tree |
| MetashMeaning.ChainAgreement | scripts/metash:338-355 | the same spelt out for blocks of plain lines: at most one elseif, or the first condition holds, or none does |
| MetashMeaning.SecondElseIfIsRefused | scripts/metash:338-355 | the smallest block on which the second elseif goes wrong |
| MetashMeaning.EagerIsMeaningDoc | scripts/metash:459-517 | on supported documents judging conditions eagerly changes nothing |
| MetashMeaning.SkippedDoc | scripts/metash:727-734 | skipped text emits nothing and defines nothing, and stops the run if and only if one of its conditions is unacceptable |
| MetashMeaning.BangNegates | scripts/metash:424-454 | one more leading '!' negates a condition and leaves rejections as they are |
| MetashVariables.DefinedAlready | scripts/metash:674-698 | weakdef of a defined name changes nothing at all; define of one is refused and changes nothing |
| MetashVariables.DefinedNow | scripts/metash:674-698 | define or weakdef of a new name binds exactly that name, to its value without surrounding double quotes |
| MetashVariables.DefinedBadly | scripts/metash:674-698 | a definition without a proper name or without a value is refused and changes nothing |
| MetashVariables.UndefLine | scripts/metash:700-711 | undef removes exactly its names, up to the first that is not defined or no longer is, which it reports |
| MetashVariables.FirstValueStays | scripts/metash:640-742 | over a whole file, errors and builtin expansions included, a variable keeps its first value unless some line may undefine it |
| MetashVariables.NoWords | scripts/metash:449-451 | a value counts as no if and only if it spells one of six words, in capitals or not |
| MetashVariables.NamedCondition | scripts/metash:424-454 | a condition on a defined name holds if and only if its value does not count as no; on an unknown one it stops the run |
| MetashVariables.DefaultCondition | scripts/metash:424-454 | NAME=preset and NAME:=preset use the preset if and only if NAME is unknown |
| MetashVariables.NoCondition | scripts/metash:408-434 | anything but one word, and a word without a name, is refused |
| MetashDocument.StreamingIsEager | scripts/metash:640-742 | for every document, supported or not, the stack machine on the flattened lines equals the eager recursive walk, errors included |
| MetashDocument.StreamDoc | scripts/metash:640-742 | the same from any reachable stack, which is restored at the end |
| MetashStack.StepKeepsGoodStack | scripts/metash:459-517 | every line keeps the stack invariant: a block is forced blind if and only if its parent is blind, and is then blind |
| MetashStack.RunKeepsGoodStack | scripts/metash:640-742 | so does every run |
| MetashStack.TopDecides | scripts/metash:727-734 | in every reachable state the top block is blind if and only if some block on the stack is |
| MetashStack.OneBranchShown | scripts/metash:459-517 | over the life of a block at most one branch is visible, none under a blind parent, and exactly one once its else was reached under a visible parent |
| MetashReader.IfBlock.Update | scripts/metash:459-517 | the in-place update of a block, with its errors, is that of the machine |
| MetashReader.Reader.Undefine | scripts/metash:700-711 | names are removed one by one up to the first unknown one, which is reported; membership looks at the dictionary's own entries only, as UserDict does for both tests |
| MetashReader.Reader.Instruction | scripts/metash:651-711 | one instruction on the list of block objects does what the machine's step does |
| MetashReader.Reader.PreprocessAndExpand | scripts/metash:640-742 | the loop over lines, re-entered by builtins, ends with the variables, output and error of the machine |
| DynStr.DynStr.constructor | init/src/common/data_types/dynstr.c:78-95 | an empty string; fails if and only if the allocation does; the recorded capacity is 0 |
| DynStr.DynStr.ResizeFreeOnError | init/src/common/data_types/dynstr.c:23-44 | keeps the string in a new buffer, or leaves nothing; characters copied never exceed the capacity |
| DynStr.DynStr.Resize | init/src/common/data_types/dynstr.c:46-57 | the doubling loop ends with a capacity above the request and at most twice the larger of the request and 1, at least twice the old one; no reallocation when the request fits |
| DynStr.DynStr.Grow | init/src/common/data_types/dynstr.c:59-63 | room for that many more characters and the terminator |
| DynStr.DynStr.AppendStr | init/src/common/data_types/dynstr.c:120-145 | the string is extended by the argument as the filter sees it, or the buffer is gone because an allocation failed |
| DynStr.DynStr.AppendStrSimple | init/src/common/data_types/dynstr.c:147-152 | the string is extended by the argument |
| DynStr.DynStr.SJoinAppend | init/src/common/data_types/dynstr.c:154-167 | the separator goes in between if and only if the string is not empty |
| DynStr.DynStr.AppendChar | init/src/common/data_types/dynstr.c:180-187 | the string is extended by one character |
| DynStr.DynStr.AppendNull | init/src/common/data_types/dynstr.c:241-246 | the string is terminated and not longer |
| DynStr.DynStr.RStripInPlace | init/src/common/data_types/dynstr.c:193-239 | the loop from the end computes the stripped string and fails exactly when that is defined to fail |
| DynStr.DynStr.Unref | init/src/common/data_types/dynstr.c:97-102 | the buffer is handed over and forgotten |
| Chars.RStripMeaning | init/src/common/data_types/dynstr.c:193-239 | a prefix is kept, everything behind it is droppable, its last character is kept, or has the high bit set if and only if stripping fails |
| StrSplit.TokensAreWords | init/src/common/strutil/split.c:127-178 | repeated strtok_r() yields exactly the non-empty delimiter-separated words |
| StrSplit.DoStrSplit | init/src/common/strutil/split.c:127-178 | the fields are appended in order and counted: the tokens, the first one cut at its own delimiters, or at most two fields around the first delimiter |
| StrSplit.SplitAtInitial | init/src/common/strutil/split.c:164-177 | the first field ends at the first initial delimiter, and only the subsequent ones cut the rest |
| StrSplit.SplitOfKey | init/src/common/strutil/split.c:164-177 | without an initial delimiter the whole string is the one field |
| StrSplit.SplitSkipsInitial | init/src/common/strutil/split.c:164-177 | initial delimiters in front are skipped, and nothing else means no fields |
| StrSplit.SplitOnceIsLossless | init/src/common/strutil/split.c:146-160 | splitting once gives a first field free of the delimiter and loses nothing but that delimiter |
| StrSplit.JoinStrArray | init/src/common/strutil/join.c:48-94 | the joined string of the elements that are not NULL, with or without a separator; NULL only if one of the allocations it can make fails |
| StrSplit.JoinIs | init/src/common/strutil/join.c:48-94 | exactly one separator between any two words; empty ones in front leave no trace |
| StrSplit.SplitOfJoin | init/src/common/strutil/join.c:48-94 | splitting what was joined gives back the words, empty ones aside |
| Which.LocateProgram | init/src/common/misc/which.c:333-425 | returns exactly the first match of the enumeration of candidates, not-found only if there is none, bad usage only if there is nothing to enumerate, out of memory only if one of the allocations such a search can make fails |
| Which.TriedUnderRoot | init/src/common/misc/which.c:170-195 | nothing outside the root is ever tried |
| Which.CandidatesInOrder | init/src/common/misc/which.c:269-331 | directories are tried in order, each with all its variants before the next |
| Which.CandidatesOfOne | init/src/common/misc/which.c:285-318 | what one directory contributes: root, directory and name joined by single slashes; an empty one counts for nothing |
| Which.VariantsInOrder | init/src/common/misc/which.c:197-242 | the bare name first, then the suffixes in order, empty ones aside |
| Which.AbsoluteNames | init/src/common/misc/which.c:244-267 | without a root that matters an absolute name is tried as it is |
| Which.AbsoluteNamesBelow | init/src/common/misc/which.c:244-267 | with a root it is tried below it, joined by one slash |
| Which.NothingToTry | init/src/common/misc/which.c:244-267 | the cases that are bad usage |
| Which.BareNames | init/src/common/misc/which.c:333-425 | a bare name is looked for in the colon-separated words of the search path |
| Which.NameInSearchPath | init/src/common/misc/which.c:269-331 | one buffer, cut back to the root prefix for every directory, finds the first match, whatever earlier candidates left behind the terminator |
| Which.TryProgNameVariants | init/src/common/misc/which.c:197-242 | the bare name before each suffix, the buffer cut back to the bare name in between |
| Which.InitFspath | init/src/common/misc/which.c:170-195 | the root prefix ends in one slash, and is empty for no root or "/" |
| Which.FirstMatchIsFirst | init/src/common/misc/which.c:269-331 | the match with the least index, and none only if no candidate matches |
| FileRead.CmdlineWords | init/src/common/fs/fileio.c:161-191 | the words read are those of the content without its strippable end; for printable ASCII, white space and NUL, all words of the content |
| FileRead.SpacesAre | init/src/common/fs/fileio.c:161-191 | what separates words: NUL and the six C white space characters |
| FileRead.ReadFileToStr | init/src/common/fs/fileio.c:245-305 | the text does not depend on how the reads were cut; -5 with the text so far if and only if a read failed |
| FileRead.ReadCmdlineFile | init/src/common/fs/fileio.c:307-344 | reading in any chunks yields exactly the words of the file |
| FileRead.RejoinedCmdline | init/src/common/strutil/join.c:48-94 | joining the words of any content with one blank and splitting again gives the same list |
| ProcRead.RecordsAreLossless | init/src/common/fs/process_info.c:221-281 | no record contains a NUL, and the records with a NUL behind each concatenate to the content, plus one NUL if it does not end in one, empty content included |
| ProcRead.ReadRecords | init/src/common/fs/process_info.c:221-281 | reading in any chunks yields exactly the records |
| ProcRead.MoveOut | init/src/common/data_types/str_dynarray.c:17-34 | the string moves out of the buffer, which is empty-handed afterwards |
| MountOpts.RoundTrip | init/src/common/fs/mount_opts.c:27-78 | for every flag set and every list of unrecognised options, parsing what was printed gives them back if and only if the flags are named ones other than MS_MOVE and MS_SYNCHRONOUS |
| MountOpts.ParseOfPrint | init/src/common/fs/mount_opts.c:27-78 | what parsing makes of printed options for any flags and any option string |
| MountOpts.LastTokenDecides | init/src/common/fs/mount_opts.c:123-251 | a flag ends up as the last token about it says, and unchanged if there is none |
| MountWords.PairDecides | init/src/common/fs/mount_opts.c:143-213 | appended to any option string, each of eleven words sets its flag and its opposite clears it, and nothing else changes |
| MountWords.LoneSets | init/src/common/fs/mount_opts.c:204-217 | remount, bind and dirsync set their flags |
| MountWords.IgnoredChangesNothing | init/src/common/fs/mount_opts.c:190-224 | the seven ignored words change nothing wherever they stand |
| MountWords.OnlyIgnored | init/src/common/fs/mount_opts.c:219-224 | a string of ignored words gives no flags and no options |
| MountWords.UnlistedIsHandedOn | init/src/common/fs/mount_opts.c:178-186 | any word on none of those lists is handed on as an option |
| MountWords.PrintedInOrder | init/src/common/fs/mount_opts.c:46-62 | the printer's words and their order; without flags it prints rw |
| MountOpts.SyncIsLost | init/src/common/fs/mount_opts.c:167-168 | MS_SYNCHRONOUS does not survive printing and parsing |
| MountOpts.ParseMountOptsStr | init/src/common/fs/mount_opts.c:123-251 | the strtok loop computes the left fold over the tokens; NULL is refused |
| MountOpts.GetMountOptsStr | init/src/common/fs/mount_opts.c:27-78 | the printed options, up to the first that could not be appended; all of them if none failed; NULL only if the array or one of the join's allocations fails |
| Argsplit.EveryTraceIsWellCut | init/src/common/strutil/argsplit.c:68-182 | for every argument list and callback each argument contributes one start event, its values in order and one end event, cut short only right after an error, NEXT_ARG or STOP |
| Argsplit.FieldsOfArgument | init/src/initramfs/cmdline.c:99-102 | the key of an argument is what comes before its first '=', its values are the non-empty words between commas after it |
| Argsplit.EventAt | init/src/common/strutil/argsplit.c:117-182 | the start event, the value events and the end event of an argument, field by field |
| Argsplit.ProcessArg | init/src/common/strutil/argsplit.c:117-182 | the loop over one argument delivers its events in order until the callback objects; NEXT_ARG is consumed |
| Argsplit.ArgvDo | init/src/common/strutil/argsplit.c:68-115 | the loop over all arguments; missing and empty ones cause no events |
| CmdlineRuns.ReadOnlyRoot | init/src/initramfs/cmdline.c:113-133 | after any successful command line the new root is read-only if and only if the last argument whose first field is "ro", "rw" or "stagedive" is not one of the latter two, or the root is enabled with type squashfs |
| CmdlineMeaning.CmdlineDoesWhatItSays | init/src/initramfs/cmdline.c:445-607 | for every command line and every state before it, splitting, callback protocol and handlers together have the effect and the return code that the words of the arguments say, up to the first that fails |
| CmdlineMeaning.ArgumentMeans | init/src/initramfs/cmdline.c:445-607 | the same for one argument: what each key and each of its values says |
| CmdlineMeaning.ReadOnlyByWords | init/src/initramfs/cmdline.c:113-133 | whether the new root is read-only, read off the words alone: the last of ro, rw and stagedive, or else whether some word enables the root and the last word about its type is squashfs |
| CmdlineMeaning.RootFlagsSay | init/src/initramfs/cmdline.c:196-228 | rootfsflags=s replaces flags and options by what s says, with nothing after '=' clears them, and without '=' fails |
| CmdlineMeaning.AutosetSays | init/src/common/fs/mount_config.c:325-420 | the automatic settings, setting by setting: only what is missing is filled in, and only squashfs forces read-only |
| CmdlineMeaning.AutosetTwice | init/src/common/fs/mount_config.c:325-420 | they are made once and for all |
| CmdlineRuns.KeyWords | init/src/initramfs/cmdline.c:610-720 | which words are looked up as which keys |
| CmdlineRuns.ModulesInWrittenOrder | init/src/initramfs/cmdline.c:460-466 | the values of all arguments "modprobe" and "load_modules" are queued in written order |
| CmdlineRuns.NoUsrMountIsFinal | init/src/initramfs/cmdline.c:556-570 | once nousrmount was seen no later argument changes the /usr mount |
| CmdlineRuns.PostprocessedRoot | init/src/common/fs/mount_config.c:325-354 | what postprocessing and the automatic settings do to the read-only flag, the type and the enabled bit |
| CmdlineProcess.InitramfsGlobals.ProcessArg | init/src/initramfs/cmdline.c:445-607 | the callback on the globals and mount objects in place: the new state, return code and flow control that the theorem on whole command lines is about |
| CmdlineProcess.InitramfsGlobals.ProcessCmdline | init/src/initramfs/cmdline.c:84-133 | the argument and event loops on those objects do what the words of the command line say, then comes the postprocessing: after success the new root is read-only as the last of "ro", "rw" and "stagedive" says (or because of squashfs), modules are queued in written order, and /usr is mounted as it was set up before the first "nousrmount" |
| CmdlineProcess.InitramfsGlobals.ProcessEvents | init/src/common/strutil/argsplit.c:117-182 | the events of one argument, each handled in place, until a handler objects |
| CmdlineProcess.InitramfsGlobals.ProcessAll | init/src/common/strutil/argsplit.c:68-115 | the loop over all arguments leaves the objects as the whole run of the handler says |
| CmdlineProcess.MountConfig.AutosetInPlace | init/src/common/fs/mount_config.c:325-354 | the automatic settings of a mount, in place |
| CmdlineProcess.MountConfig.ProcessRootFlags | init/src/initramfs/cmdline.c:196-228 | rootfsflags replaces flags and options by what parsing gives, or clears them, or fails without '=' |
| CmdlineRuns.UsrAfterNomount | init/src/initramfs/cmdline.c:556-570 | in a successful run every nousrmount finds the /usr mount in the state it keeps to the end |
| FsPath.StripNormalises | init/src/common/fs/fspath.c:132-167 | stripping keeps absoluteness and the components, is idempotent, and leaves no doubled or trailing slash except "/" |
| FsPath.StripIsNormal | init/src/common/fs/fspath.c:132-167 | stripping yields the one normal spelling of the path's components |
| FsPath.FspathStrip | init/src/common/fs/fspath.c:132-167 | the two-index copy leaves the stripped path, terminated, in a new buffer |
| FsPath.DownwardsDo | init/src/common/fs/fspath.c:73-130 | the callbacks made are the visits of the stripped path up to the first non-zero answer, which is returned |
| FsPath.Walk | init/src/common/fs/fspath.c:73-130 | the walk that overwrites and restores delimiters in the buffer shows every callback exactly its prefix and component |
| FsPath.VisitsArePrefixes | init/src/common/fs/fspath.c:73-130 | the visits of a path with components are exactly its prefixes, parents before children, the path itself last |
| FsPath.RootIsVisitedOnce | init/src/common/fs/fspath.c:73-130 | a path without components is "/" and is visited once |
| Umount.InnerMountsFirst | init/src/common/fs/umount.c:258-306 | a mount strictly below another one, "/" included, is unmounted before it if and only if it is deeper or was found first; it always is deeper if the outer one does not end in a slash |
| Umount.PlaceOrder | init/src/common/fs/umount.c:258-279 | entry a of the list comes before entry b in the unmount order if and only if it is deeper, or equally deep and found first |
| Umount.PlaceIs | init/src/common/fs/umount.c:258-279 | where each entry of the list ends up |
| Umount.RootOrder | init/src/common/fs/umount.c:258-306 | "/" is unmounted after a mount below it if and only if that is more than one level down or was found first |
| Umount.RootMayComeFirst | init/src/common/fs/umount.c:258-279 | with "/" found before "/a", "/" is unmounted first |
| Umount.SortBackSorts | init/src/common/fs/umount.c:258-279 | the order is a permutation by non-increasing depth |
| Umount.SortBackIsStable | init/src/common/fs/umount.c:258-279 | mounts of equal depth keep their order |
| Umount.UmountSort | init/src/common/fs/umount.c:258-279 | the insertion sort in place computes that order |
| Umount.GetMountDepth | init/src/common/fs/umount.c:111-133 | the counting scan gives the number of runs of slashes |
| Umount.CollectSucceeds | init/src/common/fs/umount.c:151-234 | collecting succeeds if and only if every entry looked at has the root as a prefix; then something is on the list if and only if it is made from an entry looked at that is at or below the root, as whole components, and deep enough |
| Umount.WholeTree | init/src/common/fs/umount.c:189-199 | no root, an empty one and "/" all mean the whole tree, for which collecting cannot fail; any other root is meant as it is |
| Umount.DepthCountsComponents | init/src/common/fs/umount.c:111-133 | the depth of a normalised absolute path is the number of its components, and 1 for "/" |
| Umount.CollectedDepths | init/src/common/fs/umount.c:151-234 | what was collected meets the assumptions of the ordering results |
| Umount.ReadMountpoints | init/src/common/fs/umount.c:194-234 | the loop over the mount table computes that collection |
| Umount.DoUmountAll | init/src/common/fs/umount.c:281-306 | every mountpoint is tried once in order; 0 if and only if all attempts were acceptable |
| Umount.DoUmountRecursive | init/src/common/fs/umount.c:90-107 | collect, sort, unmount; nothing is unmounted if collecting fails |
| BootLatch.PhasesStartInOrder | init/src/initramfs/hacks.h:68-100 | in every run a phase starts only after each earlier latched phase ended with a call that returned 0 or with the operator's 250, a guarded one possibly by being skipped |
| BootLatch.GuardDecides | init/src/initramfs/main/init.c:160-186 | a guarded phase is skipped if and only if its condition is answered with no; otherwise its command is what is run next |
| BootLatch.EventsAreAnswers | init/src/initramfs/hacks.h:68-100 | nothing gets into the log but what was answered at that point of the run |
| BootLatch.SmoothBoot | init/src/initramfs/main/init.c:82-262 | if no call fails, every phase happens once and in order, called unless its condition does not hold, and the boot ends with 0 |
| BootLatch.EndedRun | init/src/initramfs/main/init.c:82-262 | a boot returns 0 if and only if it got through all phases; otherwise 1 for a required one, what the operator said last for a latched one, or -1 without a shell |
| BootLatch.RootIsMountedFirst | init/src/initramfs/main/init.c:160-166 | whenever anything happens after the phase "mount / in newroot", that had returned 0, or the operator went on, or its condition had been answered with no |
| BootLatch.MainInitPhases | init/src/initramfs/main/init.c:82-262 | where the phases that results turn on stand: the mounts of / and /usr, the premount, the switch last |
| BootLatch.FailureEndsTheBoot | init/src/initramfs/hacks.h:68-100 | without the on-error shell the first failing phase is the last thing attempted |
| BootLatch.SwitchRootComesLast | init/src/initramfs/main/init.c:82-262 | when switch_root is reached every one of the phases before it was settled |
| BootLatch.FailLatch | init/src/initramfs/hacks.h:68-100 | the retry loop follows the state machine, answer by answer |
| BootLatch.RunHookCatchFail | init/src/initramfs/hacks.c:344-370 | which answers lead to which return code of a critical hook, and that it was retried only on the operator's 0 |

## Left out

- System calls, sysfs and /proc access, mkfs, mkswap, swapon, mount(2), fork and exec: only as answers that may be anything.
- Failures of close() after a sysfs write that took effect: a write reports success if and only if it took effect.
- Messages: they are taken to leave errno as it is.
- Allocation failure while creating zram handles, splitting, parsing mount options, collecting mounts and handling command line arguments. The growable string, the joins, the readers, the program search and the printing of mount options model it.
- `dynarray.c`: arrays of pointers are sequences; its doubling is that of the growable string over again.
- Overflow of `size_t` in string lengths; `ZramSize` models the widths where they matter.
- The build variants without the initstate check or with compression set before the claim.
- `zram/disk.c` and the mkswap/swapon loops of `zram/autoswap.c`, which only sequence calls around claim and release; the choice between fractional and absolute sizes in autoswap.
- The numbers behind the MS_ flags: a flag word is the set of its bits, and all unnamed bits are one family.
- tmpfs size specifications in mount options.
- The text of metash instructions: they arrive split into words. The generators of builtin expansions (`ShellMacros`), function rewriting and the command line of the tool: a builtin carries the lines it expands to.
- The expansion of variables in emitted lines: a line is emitted with the variables in force. In the source, names undefined in a file still expand to what they were before it, through the parent of the dictionary; conditions and definitions look at the dictionary's own entries only, which are what is modelled.
- metash's `define NAME` without a value raises an IndexError in the source; it is one of the model's error cases.
- Callbacks that are NULL in the downward walk.
- The latches inside early module loading: it is one step whose failure does not stop the boot.
- `_do_join_str_triple`, MAC address printing, `fspath_get_dirname_basename`, ssh command validation, untar, pingloop, environment export, devfs seeding and the makefiles.
- ZramHint.HintIsOnlyASpeedUp: assumes devices and other processes behave the same over time, because a race may take a device between the two scans.
- The options of a zdisk argument: the answer of `zram_disk_simple` is a function of the argument's words.
- MetashMeaning.StreamingIsMeaning: one direction only, because over a whole document two misread blocks can cancel each other out; `DocumentAgreement` gives both directions item by item, `CleanRuns` for success.
