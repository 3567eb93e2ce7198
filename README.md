# DMG install workflow, modelled in Dafny

This project models the `install:dmg` command of a macOS deployment tool
(`src/Command/Download/DmgInstallCommand.php`). The command downloads a disk image and mounts it
with `hdiutil attach`. It reads the device and mount point from the tool's output, then looks on
the volume for what to install: an application bundle, the only `.pkg`, or a file named like the
destination. Next it decides from the versions whether an install is needed, installs, and checks
the result. Finally it detaches the image, polls until the volume has gone, and deletes the
download.

Modules, one per part of the command:

- `Support`: `Option`, `Result`, and `ProcessResult` (the outcome of an external command: success
  flag, stdout, stderr).
- `Text`: the PHP runtime pieces the command relies on. `explode` is `Split`, `implode` is `Join`,
  `basename` / `pathinfo(..., PATHINFO_BASENAME)` is `Basename`, and PCRE's `\s` class is `IsSpace`.
- `MountParser`: `mount`. `ParseLine` computes the match PCRE reports for the attach-line pattern
  `^/dev/([^\s]+)\s+([^/]+)(/Volumes/(.*))$`. The pattern itself is stated as a decomposition
  (`IsAttachLine`), and the lemmas prove `ParseLine` sound and complete against it. `Mount` is the
  line-by-line scan. `MountResult` is the function it is proved against.
- `Unmounter`: `unmount`, with its bounded do/while poll of at most 30 one-second sleeps.
- `VolumeResolver`: `getMatchFromVolume`, `getPkgFromVolume`, `getAppFromVolume` and
  `getDestinationFromVolume`.
- `DmgInstall`: `execute` and `isInstallNeeded`. `Execute` returns the command's result together
  with a `Report` of what each step did.

Everything the command learns from outside is an input:

- the outcomes of `hdiutil attach` and `hdiutil detach`;
- the volume listing, i.e. what `glob($volume.'/*')` returns;
- what `is_dir` says about the volume before detaching and after each sleep;
- the parent class's checks (upgrade check, download, overwrite check, `isInstalled`, the version
  comparisons);
- what the installers return, and what `file_exists` and `unlink` return.

The parent class's constants `CONTINUE`, `EXIT_SUCCESS` and `EXIT_ERROR` are the parameter `Codes`.
Their values are not part of this model. Only their distinctness is used: `EXIT_ERROR` differs from
`CONTINUE`.

Line 86 stores the boolean from `isInstallNeeded` in `$retval`, and line 105 compares it with
`CONTINUE` using `===`. So whether an application bundle with a readable version gets installed
depends on what `CONTINUE` is:

- If `CONTINUE` is `true`, the bundle is installed exactly when an install is needed.
- If `CONTINUE` is an integer, the bundle is never installed.

`Execute` states both cases.

The handle's `dev` is meant to be the device node, since `unmount` passes it to `hdiutil detach`
(line 297). The code, however, returns capture group 2 of the pattern (line 343). On an `hdiutil`
line such as `/dev/disk4s1<TAB>Apple_HFS<TAB>/Volumes/X`, group 2 is the partition type with its
trailing blank, not `disk4s1`. The model follows the code, and `MountParser.TabSeparatedLine` states
this outcome.

Lines of the attach output come from `explode("\n", ...)`, so none contains a line feed. On such
lines the pattern's `$` means end of line, and `.` matches everything.

## Model

| member | source | states |
|---|---|---|
| Text.SplitSpec | src/Command/Download/DmgInstallCommand.php:338 | `explode` on a one-character separator: no piece holds the separator, and joining the pieces with it gives back the text |
| Text.SplitWhole | src/Command/Download/DmgInstallCommand.php:338 | a text without the separator is a single piece |
| Text.SplitJoin | src/Command/Download/DmgInstallCommand.php:338 | splitting a join of separator-free pieces gives back exactly those pieces |
| Text.SplitAppend | src/Command/Download/DmgInstallCommand.php:338 | splitting `a + sep + b` gives the pieces of `a` followed by the pieces of `b` |
| Text.BasenameSpec | src/Command/Download/DmgInstallCommand.php:280-284 | `basename` has no slash; it is the longest slash-free tail of the path once trailing slashes are dropped |
| Text.BasenameOfChild | src/Command/Download/DmgInstallCommand.php:282-284 | an entry `dir/name` from the volume listing has basename `name` |
| MountParser.ParseLineSound | src/Command/Download/DmgInstallCommand.php:341-343 | every handle read from a line comes from a match of the attach-line pattern: `dev` is its group 2 and `volume` is `/Volumes/` plus its group 4 |
| MountParser.ParseLineComplete | src/Command/Download/DmgInstallCommand.php:341-343 | every line the pattern matches yields a handle with that mount point; the reported group 2 is a suffix of the match's group 2, and equal to it when that group does not start with a blank (PCRE's greedy `\s+`) |
| MountParser.TabSeparatedLine | src/Command/Download/DmgInstallCommand.php:341-343 | on a tab-separated `hdiutil` line, `dev` is the partition type with its tab, and `volume` is the mount point |
| MountParser.MountLinesNone | src/Command/Download/DmgInstallCommand.php:339-347 | the scan of the output lines ends in the error "Could not determine mount point!" exactly when no line matches |
| MountParser.MountLinesFirst | src/Command/Download/DmgInstallCommand.php:339-345 | the first matching line decides the handle |
| MountParser.MountLinesSource | src/Command/Download/DmgInstallCommand.php:339-345 | a handle is what some output line parses to |
| MountParser.MountResult | src/Command/Download/DmgInstallCommand.php:326-351 | a failed attach gives its stderr as the error; after a successful attach the result is an error exactly when no line of its stdout matches the pattern, and that error is "Could not determine mount point!" |
| MountParser.MountFirstMatch | src/Command/Download/DmgInstallCommand.php:338-345 | after a successful attach, the first stdout line the pattern matches gives the handle |
| MountParser.Mount | src/Command/Download/DmgInstallCommand.php:326-351 | the `foreach` with an early return computes `MountResult` |
| MountParser.MountedFromOutput | src/Command/Download/DmgInstallCommand.php:326-351 | every handle `mount` returns comes from a successful attach and from one line of its output; that line matches the pattern with the handle's `dev` as group 2 and its `volume` as group 3 |
| MountParser.MountLinesAppend | src/Command/Download/DmgInstallCommand.php:339-345 | lines after a matching line do not change the handle |
| MountParser.LaterOutputIgnored | src/Command/Download/DmgInstallCommand.php:338-345 | once the output holds a matching line, more output after a line feed does not change the result |
| Unmounter.Unmount | src/Command/Download/DmgInstallCommand.php:293-324 | with no volume directory: success with no detach and no sleep. Otherwise detach the handle's `dev`. A failed detach gives its stderr and no sleep. A successful detach sleeps until the volume has gone, at most 30 times. The result fails exactly when the volume is still there after every one of the 30 sleeps, and the error is then "Volume still exists after unmount." |
| VolumeResolver.MatchFromVolume | src/Command/Download/DmgInstallCommand.php:278-291 | `None` exactly when no entry has the destination's basename; otherwise the first entry that has it |
| VolumeResolver.GetMatchFromVolume | src/Command/Download/DmgInstallCommand.php:278-291 | the `foreach` with an early return computes `MatchFromVolume` |
| VolumeResolver.NoPkgEntries | src/Command/Download/DmgInstallCommand.php:249 | the `*.pkg` glob is empty exactly when no entry's name ends in `.pkg` |
| VolumeResolver.SinglePkgEntry | src/Command/Download/DmgInstallCommand.php:249-254 | the `*.pkg` glob has exactly one element exactly when exactly one entry is a package, and that element is the package |
| VolumeResolver.PkgFromVolume | src/Command/Download/DmgInstallCommand.php:247-258 | a package exactly when the volume holds exactly one, and then that one |
| VolumeResolver.AppFromVolume | src/Command/Download/DmgInstallCommand.php:265-276 | a result exactly when the first entry named like the destination is an application bundle, and then that entry |
| VolumeResolver.DestinationFromVolume | src/Command/Download/DmgInstallCommand.php:229-240 | precedence: a matching application bundle first; then the only package; then any entry named like the destination; nothing when no entry is named like it and there is not exactly one package |
| VolumeResolver.TwoPackagesNoMatch | src/Command/Download/DmgInstallCommand.php:229-258 | two packages and no entry named like the destination leave nothing to install |
| DmgInstall.IsInstallNeeded | src/Command/Download/DmgInstallCommand.php:219-222 | an install is skipped exactly when the destination is installed, overwrite is off, and the offered version is not greater |
| DmgInstall.Examine | src/Command/Download/DmgInstallCommand.php:65-102 | a failed mount looks at nothing and decides `EXIT_ERROR`; otherwise what the resolver returned; nothing found decides `EXIT_ERROR`; an application bundle decides `EXIT_ERROR` on a version conflict, `isInstallNeeded` with the offered version as the new target, or `CONTINUE` without an offered version; anything else decides what the overwrite check returns |
| DmgInstall.Install | src/Command/Download/DmgInstallCommand.php:104-160 | installs exactly when the decision is `CONTINUE` and something was found; the result is then `EXIT_SUCCESS` or `EXIT_ERROR` from the installer; otherwise the decision is kept |
| DmgInstall.Verify | src/Command/Download/DmgInstallCommand.php:162-188 | a missing destination keeps the result; a present one gives `EXIT_ERROR` when a target version exists and does not match, and `EXIT_SUCCESS` otherwise |
| DmgInstall.Execute | src/Command/Download/DmgInstallCommand.php:34-217 | the step-by-step outcome listed below: early exits before mounting, the mount and resolve results, the version decision, install on `CONTINUE` only, the verification verdict, an unmount after every download, and the clean-up override |

`DmgInstall.Execute` states the following:

- An upgrade check or download that does not return `CONTINUE` is the result. Nothing is then
  mounted, installed, unmounted or cleaned.
- Otherwise the handle is what `mount` computes. A failed mount, or a volume with nothing to
  install, decides `EXIT_ERROR`.
- For an application bundle:
  - a version conflict with the target decides `EXIT_ERROR`;
  - an offered version decides `isInstallNeeded` and becomes the target;
  - no offered version decides `CONTINUE`.
- Any other artifact decides whatever the overwrite check returns.
- An artifact is installed exactly when the decision is `CONTINUE`, and it is the artifact found.
  A bundle whose version conflicts is never installed.
- When the destination is present after installing, the result is:
  - `EXIT_ERROR` on a version mismatch with the target;
  - `EXIT_SUCCESS` otherwise.
- When the destination is absent, the result is the install outcome, or the decision when nothing
  was installed.
- `unmount` always runs after a download:
  - with no handle it succeeds at once without detaching;
  - otherwise it detaches the handle's `dev` when the volume is a directory.
- A download that exists but cannot be deleted turns the result into `EXIT_ERROR`. Otherwise the
  verified result stands.

## Left out

- Running `hdiutil`, shell quoting of its arguments, and the `sleep(1)` timing are left out. The
  commands' outcomes and the successive `is_dir` answers are inputs.
- `glob` is an input listing, so its sorting, hidden-file rule and treatment of glob metacharacters
  in the volume path are left out. Its `false` return on error is also left out. The `*.pkg` glob is
  taken as the part of the same listing whose names end in `.pkg`.
- `isAppBundle`, `getShortVersion`, `getTargetVersion`, `isInstalled`, `isOverwrite`,
  `isVersionGreater`, `isVersionMatch`, `getDestination` and the semantic-version comparison
  `eq`/`setTargetVersion` are inputs. They come from the parent class and the version library,
  which are not part of this model.
- The three installers (`installAppFile`, `installPkgFile`, `installFile`) are an input function of
  the artifact. Their error text is left out.
- `executeUpgradeCheck`, `executeDownload`, `executeOverwriteCheck` and `getDownloadFile` belong to
  the parent download command, so their returns are inputs. The `file_exists` and `unlink` results
  of the clean-up are inputs too.
- Console output is left out: progress messages, badges, and the loop that prints installer errors
  line by line (lines 147-153).
- `getAppVersion`, which only feeds an error message, is left out.
- MatchFromVolume: PHP's loose `==` compares numeric strings as numbers, so `"1e1" == "10"` holds.
  The model compares basenames as strings.
- Values are modelled as integers or booleans. This assumes that the parent class's upgrade,
  download and overwrite checks return only those; that class is not part of this model.
- Exceptions are left out. `Process::run` (lines 299 and 330) can throw, for example when a command
  exceeds the process library's default 60-second timeout, and so can the parent class's
  collaborators. Such an exception ends `execute` early. `Execute`'s guarantee that `unmount` and
  the clean-up always run after a download holds only for runs in which nothing throws.
- The target version is one input, `Env.target`. It stands for what `getTargetVersion()` returns at
  line 75 and again at line 163. This assumes that between those calls only `setTargetVersion` at
  line 84 changes it.
