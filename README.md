# Tolitica core, modelled in Dafny

Tolitica is the Qt control centre of Xray OS. This project models the parts of it that decide things, and proves properties of them:

- **ada_mounter_helper** (`mounter.dfy`, module `Mounter`). It reads the partitions the user wants mounted from `manually_enabled.conf` (one `UUID=<uuid>` per line). It reads the partitions mounted under `/mnt/` from the output of `mount`. It then mounts what is missing and unmounts what is no longer wanted.
- **drive_list_widget** (`drives.dfy`, module `Drives`, class `DriveList`). It holds the tree of disks and partitions with their check boxes. It filters hidden, boot and swap partitions, asks for confirmation before a dangerous partition is changed, detects changes, and writes the selection back as a privileged shell command.
- **core_initial** (`core_initial.dfy`, module `CoreInitial`):
  - the `kdeglobals` icon-theme reader and writer;
  - the Konsole profile switch and its saved-profile file;
  - the os-release completeness test;
  - the GRUB theme switch;
  - the package-removal helpers with their retry loops.
- **widget** (`widget.dfy`, module `Widget`):
  - service and repository status classifiers;
  - the terminal-theming toggle;
  - the stepwise removal of the gaming and development meta packages (class `Stepper`);
  - the package-cache cleaner.
- **core_functions** (`core_functions.dfy`, module `CoreFunctions`):
  - the shell list and current-shell readers;
  - the Bluetooth, Flatpak, Snapd and AppArmor classifiers;
  - the Bluetooth toggle;
  - the mirror-count dialog and the mirror-ranking command.
- **main** (`startup.dfy`, module `Startup`). It chooses between the first-run window and the main window from the `initialSetup` flag in `tolitica.conf`.
- **widgetInitial** (`widget_initial.dfy`, module `WidgetInitial`):
  - the "Done" button and `markSetupComplete`, which switch the flag off;
  - the icon chooser;
  - the Xray theme toggle;
  - the terminal theming toggle.
- `text.dfy` (module `Text`) holds the Qt string operations the code relies on, as functions with lemmas:
  - `trimmed()` with `QChar::isSpace`;
  - `split` with and without empty parts;
  - `section`, `contains` and `startsWith`.

How the outside world is represented:

- A file is an `Option<seq<string>>`: its lines as `QTextStream::readLine` yields them, or `None` when the file cannot be opened.
- An external program's output and exit code are parameters. A program called once per item is a function parameter (`readlink`, `blkid`, `umount`).
- Commands that the code would start are returned as a log or a command string.
- A `QSet` is a `set`. Where the code iterates over one, the model iterates in an arbitrary order and proves its results for every order.

## Model

| member | source | states |
|---|---|---|
| Mounter.GetManuallyEnabledPartitions | ada_mounter_helper/ada_mounter_helper.cpp:18-47 | The result is the set of accepted lines of the file, and the warnings are one per rejected line. An unopenable file gives the empty set and a single open-failure warning. Every token starts with `UUID=`. |
| Mounter.ConfToken | ada_mounter_helper/ada_mounter_helper.cpp:28-43 | A configuration line that is accepted yields a token starting with `UUID=`. |
| Mounter.DesiredMembers | ada_mounter_helper/ada_mounter_helper.cpp:27-44 | A token is enabled iff some line of the file reads as exactly that token. Every enabled token starts with `UUID=`. |
| Mounter.BomIsStripped | ada_mounter_helper/ada_mounter_helper.cpp:28-40 | A trimmed `UUID=` line is accepted as itself, with or without a leading U+FEFF byte-order mark. |
| Mounter.EntryToken | ada_mounter_helper/ada_mounter_helper.cpp:75-79 | A mount point yields, when it yields anything, `UUID=` followed by a non-empty id. |
| Mounter.MountLineToken | ada_mounter_helper/ada_mounter_helper.cpp:68-79 | A line of `mount` output yields, when it yields anything, `UUID=` followed by a non-empty id. |
| Mounter.GetMountedPartitions | ada_mounter_helper/ada_mounter_helper.cpp:55-83 | The loop returns exactly the set of tokens read from the output lines. Each token is `UUID=` plus a non-empty id. |
| Mounter.ActualMembers | ada_mounter_helper/ada_mounter_helper.cpp:65-81 | A token is mounted iff some output line yields it. |
| Mounter.RenderWords | ada_mounter_helper/ada_mounter_helper.cpp:70-74 | The third word of a `dev on mp type fs` line is its mount point. |
| Mounter.RenderContainsMnt | ada_mounter_helper/ada_mounter_helper.cpp:68 | A rendered line whose mount point is under `/mnt/` passes the `contains("/mnt/")` filter. |
| Mounter.ProbeReadsEntry | ada_mounter_helper/ada_mounter_helper.cpp:67-81 | The probe reads a rendered mount-table line as the token of that line's mount point. |
| Mounter.PrintedLines | ada_mounter_helper/ada_mounter_helper.cpp:65 | Splitting the printed table on newlines, with empty parts skipped, gives back the rendered lines. |
| Mounter.ActualOfTable | ada_mounter_helper/ada_mounter_helper.cpp:55-83 | The probe over a printed mount table equals the tokens of the table's mount points. |
| Mounter.FsType | ada_mounter_helper/ada_mounter_helper.cpp:129-131 | The filesystem type is never empty. It is the trimmed `blkid` output when that is non-empty, and `auto` when it is empty. |
| Mounter.EnforceMounts | ada_mounter_helper/ada_mounter_helper.cpp:93-145 | It handles exactly the enabled tokens that are not mounted, each once. Its command log is mkdir, readlink, blkid and mount for each of them, in iteration order. |
| Mounter.MountMissing | ada_mounter_helper/ada_mounter_helper.cpp:101-144 | The loop over the enabled set handles exactly the enabled tokens that are not mounted, without repeats. Its log is the mount plan of their uuids. |
| Mounter.MountOne | ada_mounter_helper/ada_mounter_helper.cpp:104-137 | One iteration issues `mkdir -p /mnt/<uuid>`, then `readlink -f`, then `blkid` on the resolved device, then `mount -t <fs> UUID=<uuid> /mnt/<uuid>`. |
| Mounter.EnforceUnmounts | ada_mounter_helper/ada_mounter_helper.cpp:147-178 | It handles exactly the mounted tokens that are no longer enabled, each once. It issues `umount /mnt/<uuid>` for each, and the failures are exactly those with a non-zero exit code. |
| Mounter.UnmountStale | ada_mounter_helper/ada_mounter_helper.cpp:157-177 | The loop over the mounted set unmounts exactly the stale tokens and reports those whose exit code is non-zero. |
| Mounter.MountPlanShape | ada_mounter_helper/ada_mounter_helper.cpp:101-144 | The plan has four commands per uuid, and the i-th group mounts the i-th uuid on `/mnt/<uuid>`. |
| Mounter.MountPlanTargets | ada_mounter_helper/ada_mounter_helper.cpp:106-136 | The directories the plan mounts on are exactly `/mnt/<uuid>` for the planned uuids. |
| Mounter.UnmountPlanShape | ada_mounter_helper/ada_mounter_helper.cpp:160-167 | There is one `umount` per uuid, in order. The directories unmounted are exactly `/mnt/<uuid>` for those uuids. |
| Mounter.UnmountTargetConsistent | ada_mounter_helper/ada_mounter_helper.cpp:76-78 | The directory derived from a token for `umount` (160-162) is the one the probe read the token from. |
| Mounter.EntryTokenInverse | ada_mounter_helper/ada_mounter_helper.cpp:76-78 | Reading a `/mnt/` mount point as a token and deriving its directory again gives back the same mount point. |
| Mounter.AfterMountsClean | ada_mounter_helper/main.cpp:39-40 | After the mount pass, the probe sees the previously mounted tokens plus all desired ones. |
| Mounter.PassConverges | ada_mounter_helper/main.cpp:39-40 | One mounts-then-unmounts pass leaves exactly the desired tokens mounted. |
| Mounter.MountLogReachesAfterMounts | ada_mounter_helper/ada_mounter_helper.cpp:93-145 | Applying the mounts of the `enforceMounts` log to the table gives `AfterMounts`: the mounted directories are exactly those of the desired tokens that were not mounted. |
| Mounter.UnmountLogReachesAfterUnmounts | ada_mounter_helper/ada_mounter_helper.cpp:147-178 | Removing the targets of the `enforceUnmounts` log from the table gives `AfterUnmounts`. |
| Mounter.SecondPassIdle | ada_mounter_helper/main.cpp:34-35 | After one pass, nothing is left to mount or unmount, so a second pass changes nothing. |
| Drives.LoadManuallyEnabledDevices | drive_list_widget.cpp:34-50 | The widget's loader returns the set of trimmed, non-empty, non-comment lines of the file. |
| Drives.HelperTokensLoaded | drive_list_widget.cpp:43-45 | Every token the mount helper accepts is also loaded by the widget, when no line starts with a byte-order mark. |
| Drives.LoadersDiffer | drive_list_widget.cpp:43-45 | The two loaders disagree: a BOM-prefixed `UUID=` line is read differently, and `sda1` is loaded by the widget but rejected by the helper. |
| Drives.DangerousHiddenByDefault | drive_list_widget.cpp:145-175 | A dangerous partition (boot or swap) is hidden with the default options. Apart from swap, it stays hidden when only swap is shown. |
| Drives.SmallVfatHiddenNotDangerous | drive_list_widget.cpp:145-175 | A 200M vfat partition without a mount point or label is hidden as boot-like but is not dangerous. |
| Drives.ItemToken | drive_list_widget.cpp:79-80 | A row's token is empty or `UUID=` plus the uuid, and it is already trimmed. |
| Drives.Visible | drive_list_widget.cpp:131-175 | The shown partitions are the `part` entries that the current options do not hide, and every shown one is kept. |
| Drives.ChildrenAreShownParts | drive_list_widget.cpp:131-199 | The children built for a disk are exactly the boxes for its visible partitions, in order. |
| Drives.BuildTreeFresh | drive_list_widget.cpp:52-237 | A freshly built tree has each box's default equal to its checked state, and checked iff its token is enabled. |
| Drives.FreshWellFormed | drive_list_widget.cpp:79-80 | In a fresh tree every token is empty or a trimmed `UUID=` token. |
| Drives.AnyChildChanged | drive_list_widget.cpp:278-290 | It is true iff some child box, dangerous ones only when asked, differs from its default. |
| Drives.ScanChanged | drive_list_widget.cpp:270-319 | It is true iff some row has a changed parent or child box. |
| Drives.DangerousModifiedIsModified | drive_list_widget.cpp:270-319 | A dangerous modification is a modification. |
| Drives.FreshUnmodified | drive_list_widget.cpp:52-319 | Right after refresh, neither `isModified` nor `isDangerousModified` holds. |
| Drives.EnabledTokensChecked | drive_list_widget.cpp:329-350 | Every collected token belongs to a checked box of some row. |
| Drives.EnabledTokensWellFormed | drive_list_widget.cpp:329-350 | In a well-formed tree every collected token is a trimmed `UUID=` token. |
| Drives.WrittenLinesRead | drive_list_widget.cpp:353-357 | Both loaders skip the header line of the written file and read each written token back as itself. |
| Drives.GatherAfterHeader | drive_list_widget.cpp:353-357 | A reader that skips the header and reads tokens as themselves recovers the set of written tokens. |
| Drives.LoaderReadsWritten | drive_list_widget.cpp:34-50 | The widget reloads exactly the set of tokens it wrote, for tokens holding no single quote and no line break. |
| Drives.HelperReadsWritten | ada_mounter_helper/ada_mounter_helper.cpp:18-47 | The mount helper reads back exactly the set of tokens the widget wrote, for tokens holding no single quote and no line break. |
| Drives.LooksCancelled | drive_list_widget.cpp:365-381 | A failed write counts as cancelled iff the error output, trimmed of ASCII white space only (it is a byte array), is shorter than 15 characters, mentions "cancel" in any case, or the exit code is 126. An empty output always counts. |
| Drives.NoBreakSpacesNotCancelled | drive_list_widget.cpp:365-381 | Error output of 15 or more no-break spaces survives the byte-array trim, so a failed write with it (exit code not 126) is not taken as cancelled. |
| Drives.CancelTestsRedundant | drive_list_widget.cpp:374-379 | Text containing "canceled" or "authentication canceled" contains "cancel", so those two tests add nothing. |
| Drives.DriveList.constructor | drive_list_widget.h:43-45 | The options and flags start false, and the tree is built from the loaded file with the default options. |
| Drives.DriveList.Refresh | drive_list_widget.cpp:52-237 | The tree becomes the one built from the file and devices under the current options. It is fresh, and the ignore flag is cleared again (57, 236). Nothing else changes. |
| Drives.DriveList.RefreshDisk | drive_list_widget.cpp:74-109 | One disk row is built as the tree specification says. |
| Drives.DriveList.RefreshChildren | drive_list_widget.cpp:131-211 | The loop over the partitions builds exactly the specified children. |
| Drives.DriveList.ShowAdditionalPartitions | drive_list_widget.cpp:240-267 | A cancelled dialog changes nothing. An accepted one stores the three options and rebuilds the tree. |
| Drives.DriveList.ToggleDisk | drive_list_widget.cpp:103-109 | The parent box flips. A selection signal is emitted unless changes are ignored. |
| Drives.DriveList.TogglePartition | drive_list_widget.cpp:193-227 | A safe box flips. A dangerous box flips only when confirmed. A declined change sets the box to its default state and emits no selection signal. Nothing else in the tree changes. |
| Drives.DriveList.ApplyMountSelection | drive_list_widget.cpp:321-388 | The command writes the collected tokens. The result is success iff exit 0 or the error looks cancelled. `operationCancelled` is set iff the exit code is non-zero and the error looks cancelled. |
| Drives.CollectTokens | drive_list_widget.cpp:329-350 | The loop collects the specified tokens, each from a checked box. |
| Drives.CollectChildTokens | drive_list_widget.cpp:337-347 | The inner loop collects the tokens of the checked child boxes. |
| Drives.BuildWriteCommand | drive_list_widget.cpp:353-357 | The command is the header write followed by one append per token. |
| Drives.AppendAll | drive_list_widget.cpp:355-357 | The loop appends one `echo ... >>` per token. |
| CoreInitial.AnySetsTo | core_initial.cpp:357-367 | It is true iff some line sets the key to the value. |
| CoreInitial.FirstWith | core_initial.cpp:307-336 | It finds the first line with the prefix, or reports that none has it. |
| CoreInitial.ReplacePrefixed | core_initial.cpp:307-336 | Every line with the prefix is replaced, and every other line is kept. |
| CoreInitial.UpsertFirst | core_initial.cpp:307-336 | After an upsert, the first line with the prefix is the new line. |
| CoreInitial.FindFirst | core_initial.cpp:255-262 | The loop finds the first line with the prefix. |
| CoreInitial.UpsertLines | core_initial.cpp:307-336 | The loop replaces the key lines, or appends the new line when there is none. |
| CoreInitial.IconsName | core_initial.cpp:396-432 | The name is one of the three icon themes, and each theme name maps to itself. |
| CoreInitial.CurrentIcons | core_initial.cpp:396-432 | The current theme is one of the three names. A missing file means breeze-dark. |
| CoreInitial.SetIcons | core_initial.cpp:434-467 | A missing file is not written. Otherwise the theme line in `[Icons]` is rewritten, or the section is appended. |
| CoreInitial.RewriteLoop | core_initial.cpp:447-459 | The loop's output is the rewrite. It reports the section as found iff some line opens `[Icons]`. |
| CoreInitial.RewriteLine | core_initial.cpp:448-458 | One line becomes the new theme line iff it is a theme line inside `[Icons]`. |
| CoreInitial.RewriteKeeps | core_initial.cpp:447-459 | The rewrite keeps the length and every line other than theme lines inside `[Icons]`. |
| CoreInitial.RewriteFound | core_initial.cpp:447-459 | When the section exists, the rewritten file reads back as the new theme. |
| CoreInitial.NoSectionKeeps | core_initial.cpp:463-467 | Without an `[Icons]` section, the rewrite changes nothing, and reading the appended tail alone gives the same result. |
| CoreInitial.RewriteReadsBack | core_initial.cpp:434-467 | For two readings that agree on headers and theme lines, the written file reads back as the new theme. This holds when the file has no `[Icons]` section, so one is appended, or when the scan already finds a theme line in one. |
| CoreInitial.IconsRoundTrip | core_initial.cpp:396-467 | `currentIcons` after `setIcons(x)` is `x` for each of the three themes. Two conditions apply. No section header is indented, because `setIcons` tests `[` on the untrimmed line (450) while `currentIcons` trims first (408-414). The file has no `[Icons]` section, or a theme line inside one; see Findings for an `[Icons]` section without one. |
| CoreInitial.IconsChoiceLost | core_initial.cpp:447-467 | As written, a file holding only `[Icons]` is left unchanged by `setIcons(Dracula)` and still reads as breeze-dark. |
| CoreInitial.SetIconsLinesIntended | core_initial.cpp:434-467 | The intended rewrite replaces the theme lines inside `[Icons]` when there is one. Otherwise it keeps every line and appends an `[Icons]` section with the theme. |
| CoreInitial.IconsRoundTripIntended | core_initial.cpp:396-467 | With the intended rewrite, `currentIcons` reads back each of the three themes for every file whose headers are unindented. |
| CoreInitial.ScanAgree | core_initial.cpp:404-467 | Two readings that agree on headers and theme lines find a theme line in `[Icons]` in the same files. |
| CoreInitial.RewriteNoTheme | core_initial.cpp:447-459 | With no theme line inside `[Icons]`, the rewrite leaves the file unchanged. |
| CoreInitial.ScanAppend | core_initial.cpp:404-431 | A scan that finds nothing in some lines continues into the lines appended after them. |
| CoreInitial.SetIconsReadsBack | core_initial.cpp:434-467 | The written file's `[Icons]` theme value is the one set. This holds when no header is indented and the file has no `[Icons]` section or a theme line inside one. |
| CoreInitial.CurrentIconsOfScan | core_initial.cpp:396-432 | A file whose scan finds a known theme reports that theme. |
| CoreInitial.KonsoleProfStatus | core_initial.cpp:222-242 | The status is true iff konsolerc was read and some trimmed line sets `DefaultProfile` to the Xray profile. |
| CoreInitial.NewTolitica | core_initial.cpp:244-306 | With the Xray profile current, tolitica.conf is untouched. Otherwise it exists afterwards, its first `lastKonsoleProfile=` line records the current profile, and its lines without that key are kept. |
| CoreInitial.NewKonsolerc | core_initial.cpp:244-346 | The first `DefaultProfile=` line names the saved profile when the Xray profile was current, and the Xray profile otherwise. The other lines are kept. |
| CoreInitial.SetKonsoleProfile | core_initial.cpp:244-346 | An unreadable konsolerc changes nothing. Otherwise both files become the specified rewrites. |
| CoreInitial.UpsertSingle | core_initial.cpp:307-336 | With a single key line, the upsert changes exactly that line. |
| CoreInitial.KonsoleFirstCall | core_initial.cpp:244-346 | The first call switches to the Xray profile, remembers the old one, and changes only the profile line. |
| CoreInitial.KonsoleSaved | core_initial.cpp:266-296 | The saved profile file reads back as the profile that was replaced. |
| CoreInitial.KonsoleToggleRestores | core_initial.cpp:222-346 | The status is on after one call, and a second call restores the original konsolerc. |
| CoreInitial.OsReleaseStatus | core_initial.cpp:90-146 | An unreadable file is false. A true status needs at least as many lines as expected keys. When no two matching lines share a key, the as-written status equals the intended one. |
| CoreInitial.SubsetOfSameSize | core_initial.cpp:131-145 | A set of matched keys as large as the expected keys is all of them. |
| CoreInitial.MatchCount | core_initial.cpp:131-142 | The count of matching lines never exceeds the number of lines. |
| CoreInitial.MatchedKeys | core_initial.cpp:97-142 | The matched keys are exactly the expected keys with a matching line. |
| CoreInitial.CompleteIffAllPresent | core_initial.cpp:90-146 | The intended status holds iff every expected key has a matching line. |
| CoreInitial.KeysAllMatched | core_initial.cpp:131-145 | The matched keys equal the expected keys iff every key has a match. |
| CoreInitial.IdLineMatches | core_initial.cpp:97-110 | `ID=xray_os` is a matching line. |
| CoreInitial.RepeatedLinePasses | core_initial.cpp:131-145 | As written, a file repeating one matching line as many times as there are keys passes the status test. |
| CoreInitial.RepeatCount | core_initial.cpp:131-142 | n copies of a matching line count n. |
| CoreInitial.CountIsKeysWhenDistinct | core_initial.cpp:131-145 | When no two matching lines share a key, the count equals the number of matched keys. |
| CoreInitial.GrubThemeStatus | core_initial.cpp:348-368 | The status is true iff the file was read and some trimmed line sets `GRUB_THEME` to the Xray theme. |
| CoreInitial.GrubValueFor | core_initial.cpp:370-376 | The value written is one of the two themes. It is the Xray theme iff the status is currently false. |
| CoreInitial.SetGrubThemeCommand | core_initial.cpp:370-376 | The command is a sed substitution of `GRUB_THEME=` followed by `grub-mkconfig`. The value between them is the theme the status does not currently report. |
| CoreInitial.SetGrubThemeFlips | core_initial.cpp:348-376 | On a file with an unindented `GRUB_THEME=` line, the sed rewrite with the value taken from the command flips `grubThemeStatus`. |
| CoreInitial.SedGrubTheme | core_initial.cpp:370-376 | The sed rewrite keeps the line count and every line not starting with `GRUB_THEME=`. When such a line exists, the file then sets the key to the value. |
| CoreInitial.GrubCommandOf | core_initial.cpp:370-376 | The command starts with the sed head, ends with the mkconfig tail, and holds the value between them. |
| CoreInitial.SedToggle | core_initial.cpp:348-376 | The sed rewrite of a key toggles its status between the two values. |
| CoreInitial.GrubToggle | core_initial.cpp:348-376 | On a file with an unindented `GRUB_THEME=` line, writing the value `setGrubTheme` chooses flips `grubThemeStatus`. |
| CoreInitial.GrubThemesClean | core_initial.cpp:348-376 | The two theme paths are distinct, well-formed values. |
| CoreInitial.ThemePathClean | core_initial.cpp:370-376 | A theme path built from a quote-free name is a well-formed value. |
| CoreInitial.PackageCommand | core_initial.cpp:500-501 | The command removes (`pacman -Rns`) iff the package is installed, installs (`pacman -S`) otherwise, and ends with the package name. |
| CoreInitial.CommandToRun | core_initial.cpp:536-541 | The offline `pacman -U` command is chosen iff the package is not installed and the machine is offline. Otherwise the command is the package command, `pacman -Rns` or `pacman -S`. |
| CoreInitial.CappedNeverStops | core_initial.cpp:552-561 | As written, after any number of failures the attempt counter is at most 2 and the loop runs again. |
| CoreInitial.CountedStopsAtThree | core_initial.cpp:552-561 | With the counter incremented, it counts the failures, and the loop stops after three. |
| CoreInitial.RetryAsWritten | core_initial.cpp:552-561 | As written, the loop repeats until the command succeeds. Within the horizon, it finished iff the last run exited 0. |
| CoreInitial.RunWithRetries | core_initial.cpp:727-745 | The loop of `getArch7zGamingMeta`, general in its cleanup commands. It runs between 1 and 3 times, stops at the first success, and its log puts the cleanup commands after each failing run. With no cleanup commands it is the corrected form of the loop at 552-561. |
| CoreInitial.GetRemovePackage | core_initial.cpp:496-579 | A missing directory or no `.zst` file means no command and no callback. Otherwise the chosen command runs `runs` times, between 1 and the horizon, and every run before the last failed. The callback receives true iff the last run succeeded. It is not called only when the horizon was reached. |
| CoreInitial.RetryLogCommands | core_initial.cpp:552-561 | Without cleanup, the log is n copies of the command. |
| CoreInitial.GetArch7zGamingMeta | core_initial.cpp:689-760 | Offline nothing runs and there is no callback. Online the command runs one to three times and the callback reports success. |
| Widget.ChaoticStatus | widget.cpp:491-523 | 1 iff all four checks pass, 2 iff none does, 3 otherwise. |
| Widget.ServicesStatus | widget.cpp:638-665 | True iff every service's outputs, trimmed of ASCII white space, read `enabled` and `active`. The loop stops at the first failing one. |
| Widget.VmwareStatus | widget.cpp:670-689 | 0 iff the package and the services are up, 1 iff neither is, 2 otherwise. |
| Widget.FirstContaining | widget.cpp:839-846 | It finds the first line containing the target, or reports that none does. |
| Widget.TermThemingStatus | widget.cpp:825-849 | 0 iff the file is missing or no line contains the target. Otherwise the status reflects whether the first such line is commented. |
| Widget.DisableTermTheme | widget.cpp:854-929 | Without the json file, without confirmation or with status 0, nothing is written. Otherwise the lines are toggled. |
| Widget.ToggleLoop | widget.cpp:899-911 | The loop applies the per-line toggle to every line. |
| Widget.CommentKeepsTarget | widget.cpp:899-911 | Commenting a line does not change whether it contains the target. |
| Widget.TermToggleTwice | widget.cpp:825-929 | Disabling flips the status to commented, and toggling again restores the file. |
| Widget.GamingRemoveCommands | widget.cpp:319-332 | There are six package removals followed by the orphan cleanup step. |
| Widget.DevelopmentRemoveCommandsAsWritten | widget.cpp:448-458 | As written, three removals are followed by the cleanup built from the mistyped orphan command. |
| Widget.DevelopmentRemoveCommands | widget.cpp:448-458 | Three removals are followed by the same cleanup step as the gaming list. |
| Widget.OrphanCommandTypo | widget.cpp:457 | The development cleanup differs from the gaming one because it lacks the `$` of `$(...)`. |
| Widget.Progress | widget.cpp:339-362 | The progress after `step` handler runs is `step` times the unit, and never negative for a non-negative unit. |
| Widget.ProgressWithinHundred | widget.cpp:339-362 | With n commands, the progress stays within 0..100, and falls short of 100 after the last step when n does not divide 100. |
| Widget.Stepper.AsWritten | widget.cpp:339-364 | The first command is started without advancing the step counter. |
| Widget.Stepper.Corrected | widget.cpp:339-364 | The first command is started and the step counter advanced. |
| Widget.Stepper.OnFinished | widget.cpp:342-362 | Each finish signal starts the next command and advances, or marks completion at 100. |
| Widget.RunToCompletion | widget.cpp:302-366 | As written, the commands run as the first one followed by all of them, with n+1 finish signals. Corrected, each runs once. |
| Widget.KeptMembers | widget.cpp:91-92 | The kept entries are exactly those not named `completion.cache`, `vcs.json`, `local` or `sync`. |
| Widget.CacheEntriesMembers | widget.cpp:96-119 | The cache entries are exactly the non-excluded entries of the readable directories. |
| Widget.DirsOnlyMembers | widget.cpp:113-117 | The removed entries are exactly the directories. |
| Widget.DirsOnlyAppend | widget.cpp:96-119 | Filtering directories distributes over concatenation. |
| Widget.CleanPkgCache | widget.cpp:79-126 | As written, "files found" iff there is any cache entry. Removal is attempted on directory entries only. |
| Widget.CleanDir | widget.cpp:100-118 | The inner loop finds entries iff any is kept, and removes the kept directories. |
| Widget.CleanPkgCacheIntended | widget.cpp:79-126 | Corrected, every non-excluded cache entry is removed, and "files found" iff anything was removed. |
| Widget.CleanDirIntended | widget.cpp:100-118 | Corrected, the inner loop removes every kept entry. |
| Widget.PackageArchiveKept | widget.cpp:113-117 | As written, a package archive file is found but not removed. |
| CoreFunctions.InstalledShells | core_functions.cpp:63-81 | An unreadable `/etc/shells` gives no shells. Otherwise the result is the trimmed lines under `/bin`. |
| CoreFunctions.ShellsMembers | core_functions.cpp:63-81 | A shell is listed iff some trimmed line is it and starts with `/bin`. |
| CoreFunctions.ShellsAppend | core_functions.cpp:63-81 | The shell list of concatenated files is the concatenation of their lists. |
| CoreFunctions.SplitLastField | core_functions.cpp:49-57 | The last `:` field of a string is a colon-free suffix that follows a colon or is the whole string. |
| Text.TrimAscii | core_functions.cpp:49 | `QByteArray::trimmed`: the result is no longer than the input, does not start or end with ASCII white space, and is empty only when the input is all ASCII white space. |
| CoreFunctions.CurrentShell | core_functions.cpp:45-58 | Output that is empty once ASCII white space is trimmed means "Unknown". Otherwise the result is the last `:`-separated field of the trimmed output. |
| CoreFunctions.BluetoothStatus | core_functions.cpp:113-130 | 0 iff enabled and active, 1 iff neither, 2 otherwise. |
| CoreFunctions.FlatpakStatus | core_functions.cpp:490-507 | 0 iff installed with the repository set, 1 iff neither, 2 otherwise. |
| CoreFunctions.SnapdStatus | core_functions.cpp:584-605 | 0 iff installed, enabled and linked, 1 iff none of the three, 2 otherwise. |
| CoreFunctions.CatProbeOnly | core_functions.cpp:165-189 | Only the third kernel probe (the `cat` of the enabled flag) must print `Y`. The other two only need output. Outputs are trimmed of ASCII white space only, as `QByteArray::trimmed` does. |
| CoreFunctions.KernelSupport | core_functions.cpp:165-189 | Kernel support holds iff every probe passes. The loop stops at the first failing probe. |
| CoreFunctions.QuotedPrefix | core_functions.cpp:207 | The captured value contains no quote or newline and is followed by the quote. None means no quote on the first line. |
| CoreFunctions.QuotedPrefixOf | core_functions.cpp:207 | Capturing up to the closing quote recovers the quoted text. |
| CoreFunctions.GrubParams | core_functions.cpp:207-213 | There is a match iff the pattern matches at some offset of the file. The captured parameters are those of the leftmost offset where it matches. |
| CoreFunctions.MatchAtSetting | core_functions.cpp:207-213 | At the setting itself, the pattern captures the quoted parameters. |
| CoreFunctions.NoMatchInPrefix | core_functions.cpp:207-213 | Whole lines that do not contain `GRUB_CMDLINE_LINUX_DEFAULT=` hold no match at any offset. |
| CoreFunctions.GrubParamsFound | core_functions.cpp:200-214 | In a file whose setting `GRUB_CMDLINE_LINUX_DEFAULT="..."` comes after any number of whole lines without the key, the captured parameters are the setting's. |
| CoreFunctions.GrubSetWithLsm | core_functions.cpp:200-214 | Such a file whose parameters contain the AppArmor LSM list counts as set. |
| CoreFunctions.AppArmorState | core_functions.cpp:216-222 | 1 iff all three checks pass, 2 iff none does, 3 otherwise. |
| CoreFunctions.ApparmorStatus | core_functions.cpp:162-223 | 0 iff a kernel probe fails. Otherwise the result is the three-check state. |
| CoreFunctions.BluetoothAfter | core_functions.cpp:145-153 | A failed command keeps the status. A successful one flips between on (0) and off (1). |
| CoreFunctions.EnableBluetooth | core_functions.cpp:135-157 | It disables when on and enables otherwise. The box and its label follow the new status. |
| CoreFunctions.SpinValue | core_functions.cpp:339-340 | The spin box value lies within its range, and in-range values are kept. |
| CoreFunctions.MirrorCount | core_functions.cpp:328-376 | Cancel gives -1 and "rank all" gives 0. Otherwise the value is within the range, the default when nothing was entered. |
| CoreFunctions.WordsOfJoin | core_functions.cpp:418-436 | Joining space-free words with spaces and splitting again gives them back. |
| CoreFunctions.RankCommandWords | core_functions.cpp:418-436 | The words of the ranking command are its argument vector. |
| CoreFunctions.CountArgIsNoKeyword | core_functions.cpp:418-436 | The printed count is never a program name or an option. |
| CoreFunctions.ReflectorArgv | core_functions.cpp:418-427 | With reflector, the command uses `--latest` iff a count is given, and never `rankmirrors` or `-n`. |
| CoreFunctions.RankmirrorsArgv | core_functions.cpp:428-436 | Without reflector, the command uses `-n` iff a count is given, and never `reflector` or `--latest`. |
| CoreFunctions.RankArgvOptions | core_functions.cpp:415-436 | The program follows `which reflector`, the count option appears iff the count is non-zero with the count in place, and the mirror list is last. |
| CoreFunctions.RankMirrorsClicked | core_functions.cpp:381-482 | A cancelled count dialog starts nothing. Otherwise the mirror-list backup starts first. The ranking command follows iff the progress dialog was not cancelled and the backup exited 0. Its words are the tool's argument vector: no count for "rank all", 10 when nothing was entered, and a count between 1 and 100 otherwise. |
| CoreFunctions.RankMirrorsFlow | widget.cpp:1363-1369 | When the dialog is accepted, the progress dialog is not cancelled and the backup succeeds, the commands are the backup, then the ranking command built from the dialog's count. The count is 0 for "rank all", otherwise between 1 and 100, and 10 by default. |
| Startup.ContainsEqualsSplits | main.cpp:33-34 | A line holding `=` has a second field, so `split("=")[1]` is defined. |
| Startup.InitialSetupIs0 | main.cpp:27-42 | The flag is set iff some line reads as `initialSetup` = 0. The loop stops at the first such line, and an unreadable file leaves the flag false. |
| Startup.ShouldShowInitialSetup | main.cpp:45 | The setup window is shown iff the session is not live and the flag reads 0. |
| Startup.ChooseWindow | main.cpp:17-58 | The first-run window opens iff the live probe fails and some configuration line reads 0. |
| Startup.ZeroLineReads | main.cpp:31-40 | `initialSetup=0` reads as 0. |
| WidgetInitial.FlagTexts | widgetInitial.cpp:2149-2150 | The pending and done texts differ only in their last character, 0 versus 1. |
| WidgetInitial.DoneRewrite | widgetInitial.cpp:2138-2165 | An unreadable file is not written. Otherwise each line is rewritten by the done rule, and the line count is unchanged. |
| WidgetInitial.DoneIdempotent | widgetInitial.cpp:2149-2153 | Applying the done rule twice equals applying it once. |
| WidgetInitial.DoneSwitchesOff | widgetInitial.cpp:2138-2165 | After the done rule, a line reads 0 iff it did before and did not start with `initialSetup = 0`. |
| WidgetInitial.MarkSetupComplete | widgetInitial.cpp:2250-2263 | The file is written iff it was readable. The result contains no `initialSetup = 0`, and only 0s turned into 1s. |
| WidgetInitial.CloseEvent | widgetInitial.cpp:2217-2248 | Closing is accepted iff the user says yes, and only then is the flag switched off. |
| WidgetInitial.ReplaceBumps | widgetInitial.cpp:2257 | The replacement changes nothing but some 0s into 1s. |
| WidgetInitial.ReplaceNoPending | widgetInitial.cpp:2257 | After replacement, no `initialSetup = 0` remains. |
| WidgetInitial.ReplaceNoop | widgetInitial.cpp:2257 | Content without the pending text is unchanged. |
| WidgetInitial.SwitchOffIdempotent | widgetInitial.cpp:2257 | Replacing twice equals replacing once. |
| WidgetInitial.ReplaceJoin | widgetInitial.cpp:2257 | Replacement distributes over a line break. |
| WidgetInitial.ReplaceJoinLines | widgetInitial.cpp:2257 | Replacing in the whole file equals replacing line by line. |
| WidgetInitial.DoneLineReadsOne | widgetInitial.cpp:2150 | A line starting with `initialSetup = 1` never reads as 0. |
| WidgetInitial.NeverCreatesZero | widgetInitial.cpp:2257 | A line that reads 0 after the replacement read 0 before it. |
| WidgetInitial.PendingSwitchedOff | widgetInitial.cpp:2257 | A line starting with `initialSetup = 0` no longer reads 0 afterwards. |
| WidgetInitial.UnspacedFlagKept | widgetInitial.cpp:2149-2150 | `initialSetup=0`, which start-up reads as 0, is left as it is by both writers. |
| WidgetInitial.MarkSetupCompleteClears | widgetInitial.cpp:2250-2263 | The rewritten file's lines are the lines with the flag switched off. A line that reads 0 afterwards did before and was not pending. If every 0-line was pending, none reads 0 afterwards. |
| WidgetInitial.IconChooser.constructor | widgetInitial.cpp:785-852 | The box of the current theme is shown checked. |
| WidgetInitial.IconChooser.OnIconClicked | widgetInitial.cpp:873-910 | Exactly one box ends up checked, for the chosen theme. The written file is the icon rewrite. It reads back as the chosen theme when no header is indented and the file has no `[Icons]` section or a theme line inside one. |
| WidgetInitial.XrayToggle.constructor | widgetInitial.cpp:482-510 | The toggle starts from the theme status. |
| WidgetInitial.XrayToggle.OnClicked | widgetInitial.cpp:533-551 | The click applies Breeze when Xray was on and Xray otherwise, and flips the state and its label. |
| WidgetInitial.TerminalToggle.constructor | widgetInitial.cpp:573-607 | Theming starts enabled iff os-release, the Konsole profile and the terminal status all say so. |
| WidgetInitial.TerminalToggle.OnClicked | widgetInitial.cpp:630-676 | Disabling makes all three calls. Enabling makes each call only where its part is missing. The state and label flip. |

## Left out

- Qt widgets, layouts, message boxes, animations and timers are not modelled. Dialog answers are boolean parameters.
- Process spawning, D-Bus, `QSettings`, the network and the connectivity checker are not modelled. Outputs, exit codes and connectivity are parameters.
- Parsing of the `lsblk` JSON output is not modelled. Disks and partitions arrive already parsed as `DiskRecord`/`PartRecord` values, and a size is `Option<real>`, because floating-point text parsing is outside the model.
- The `QFileSystemWatcher` loop in `ada_mounter_helper/main.cpp` is not modelled. Only the mounts-then-unmounts pass it runs is.
- `QSet` iteration order is unspecified in Qt. The reconcilers are proved for every order, not for Qt's.
- Mounter.PassConverges: convergence and idempotence are proved on a model of the mount table as a set of mount points, where mount adds `/mnt/<uuid>` and umount removes it. It does not model a failing `mount` or `umount`.
- Write failures are not modelled. A file that opens is written in full.
- `setOSrelease` is not modelled because it is a privileged writer. The terminal toggle only records that it is called.
- `applyGlobalTheme` is not modelled. `xrayThemeStatus` is a parameter of the Xray toggle.
- The `USER` variable and the `getent` call are not modelled. The `passwd` line is a parameter.
- CoreFunctions.QuotedPrefix: the GRUB regular expression is modelled as the first match of the key followed by a quote on one line, not as a general regex engine.
- CoreFunctions.BluetoothAfter: the status after `systemctl` is derived from the exit code. It is not re-probed.
- WidgetInitial.IconChooser.OnIconClicked: the six icon handlers are modelled as one method parameterised by the theme. The preview images are not modelled.
- `enableAppArmor`, `enableFlatpak`, `enableSnapd` and `changeShell` are not modelled because they only start privileged commands.
- CoreInitial.RetryAsWritten: the unbounded loop is explored up to a caller-chosen horizon, because a non-terminating method cannot be stated without `decreases *`.
- Widget.CleanPkgCache: whether removeRecursively succeeds is not modelled; `removed` lists the directories removal was attempted on, and the `pkexec rm -f` fallback (widget.cpp:114-115), lacking `-r`, cannot delete a directory.
- Widget.VmwareStatus: the two `vmwareServiceStatus` calls (679, 682) are modelled as one boolean input.
- The `currentOSreleaseStatus` read at widgetInitial.cpp:632 is not modelled because nothing uses it.
- CoreInitial.SetGrubThemeCommand: only the command is modelled, not the error dialog shown on a non-zero exit code.
- Drives.WrittenLines: the file the `echo ... | pkexec tee` pipeline writes is assumed to be the header line followed by the tokens, not derived from the shell's semantics. Drives.LoaderReadsWritten and Drives.HelperReadsWritten therefore ask for tokens without a single quote or a line break, which the shell would split or unquote.
- Drives.LooksCancelled: case-insensitive matching is Text.Lower, which folds ASCII letters only. Qt's case folding also maps some non-ASCII letters onto ASCII ones, such as U+0130 and U+212A, so "EFİ" is boot-like in the program and not in the model. The length test counts code points, while `QString::length` counts UTF-16 units.
- The unchecked `split(...)[1]` at main.cpp:34 and core_initial.cpp:121 is written with a length guard. At main.cpp:34 the guard always holds (Startup.ContainsEqualsSplits), and a line starting with `xrayos_img_ver = ` likewise always has a second field.
- The calamares page and the connectivity checker are not modelled.

## Findings

| source | as written | input that shows it | evidently intended | confidence | as-written member | corrected member |
|---|---|---|---|---|---|---|
| widget.cpp:364 with 339-361 | The first command is started before the step counter moves, so the finish handler starts it again. | Any command list: `[a, b]` runs `a, a, b`. | Each removal command runs once. | not executed | Widget.Stepper.AsWritten, Widget.RunToCompletion | Widget.Stepper.Corrected |
| widget.cpp:484 with 463-482 | The same off-by-one in the development meta removal. | `[a, b, c, d]` runs `a, a, b, c, d`. | Each command runs once. | not executed | Widget.Stepper.AsWritten, Widget.RunToCompletion | Widget.Stepper.Corrected |
| core_initial.cpp:552-561 (also 650-659) | The attempt counter is capped at 2 while the loop tests `< 3`, so a failing command is retried forever. | An exit code that is always 1. | Stop after three attempts. | not executed | CoreInitial.CappedNeverStops, CoreInitial.RetryAsWritten | CoreInitial.CountedStopsAtThree, CoreInitial.RunWithRetries |
| widget.cpp:113-117 | Only directory entries are removed, yet any entry counts as found and success is reported. | A cache holding `linux-6.9.tar.zst`. | Every cache entry is removed. | not executed | Widget.CleanPkgCache, Widget.PackageArchiveKept | Widget.CleanPkgCacheIntended |
| widget.cpp:457 | The orphan cleanup uses `&(pacman -Qtdq)` where `$(pacman -Qtdq)` is meant. | Any run of the development removal. | The same cleanup as the gaming removal (331). | not executed | Widget.DevelopmentRemoveCommandsAsWritten, Widget.OrphanCommandTypo | Widget.DevelopmentRemoveCommands |
| core_initial.cpp:131-145 | Matching lines are counted, not distinct keys, so repeated lines can stand in for missing keys. | An os-release holding `ID=xray_os` once per expected key. | Every expected key is present. | not executed, low | CoreInitial.RepeatedLinePasses | CoreInitial.CompleteIffAllPresent |
| core_initial.cpp:447-467 | An `[Icons]` section without a `Theme=` line counts as found, so no theme line is replaced and none is appended. | A kdeglobals holding only `[Icons]`, with Dracula chosen. | The chosen theme is written, and `currentIcons` reads it back. | not executed | CoreInitial.IconsChoiceLost | CoreInitial.SetIconsLinesIntended, CoreInitial.IconsRoundTripIntended |
