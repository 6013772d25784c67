# flatpak-xdg-utils, modelled in Dafny

This project models the core of flatpak-xdg-utils. These are the small
programs a Flatpak sandbox uses to reach services outside it:

- `flatpak-spawn` runs a command outside the sandbox, or in a new
  sub-sandbox. It sends the command to `org.freedesktop.Flatpak.Development`
  with `HostCommand` (`--host`) or to the Flatpak portal with `Spawn`. It
  then waits for the service to report that the child has exited.
- `xdg-open` hands one file or URI to the OpenURI desktop portal.
- `xdg-email` hands one address, with an optional subject, body and
  attachment, to the Email desktop portal.

The model covers the following:

- Command line:
  - the split of flatpak-spawn's command line into options and the command;
  - the environment tables built by `--env`, `--unset-env` and `--env-fd`,
    including the NUL-separated block read from a descriptor;
  - the `--sandbox-flag` parser and mask.
- The request:
  - the descriptor table (stdio, then `--forward-fd`);
  - the spawn flags, with their `--host` incompatibilities and the
    portal-version and supports gates;
  - the `/usr/bin/env -u` rewrite of the command when the portal cannot
    unset variables itself;
  - each options stage of the `Spawn` call (`sandbox-expose*`,
    `sandbox-flags`, `sandbox-expose-fd*`, `app-fd`, `usr-fd`);
  - the two call shapes;
  - the single retry without `--watch-bus`.
- After the call:
  - `get_path_after`;
  - the decoding of the child's wait status into flatpak-spawn's own exit
    status;
  - the signal-forwarding plan;
  - the name-owner vanish check;
  - the main loop as an event-driven state machine.
- xdg-open and xdg-email:
  - the `main` decision table of each tool: exit statuses 0-5 and which
    portal call is made with which arguments;
  - `warn_ignored_parameter`, which xdg-email uses to accept and drop
    `--cc` and `--bcc`.

The modules follow the program's structure:

- `Basics`: Option/Result, digit strings, a digits-only `strtol`, and
  32-bit truncation.
- `SpawnArgs`: the command-line split.
- `SpawnEnv`: the environment tables and the `--env-fd` block.
- `SandboxFlags`: the `--sandbox-flag` parser and mask.
- `PathPrefix`: `get_path_after`.
- `SpawnFds`: the descriptor table.
- `SpawnFlags`: the spawn flags and their gates.
- `UnsetRewrite`: the `env -u` rewrite.
- `SpawnRequest`: the request builder.
- `SpawnLaunch`: parse, build and send with the retry.
- `SpawnRelay`: wait status, signals and the main loop.
- `PortalFront`: the part xdg-open and xdg-email share.
- `XdgOpen` and `XdgEmail`.

The outside world is passed in as parameters:

- which descriptors are open;
- which paths `open()` succeeds on;
- the portal's version and supports bits;
- whether the session bus and the signal watch could be set up;
- the service's replies;
- what `g_file_new_for_commandline_arg` makes of an argument.

When the session bus connection closes, the handler
(`src/flatpak-spawn.c:311-318`) only quits the main loop, and `main` then
returns 0 (`src/flatpak-spawn.c:1317-1327`). `SpawnRelay.EndsWith`
therefore gives 0 for `BusClosed`.

The option parse runs `--sandbox-flag` through the callback as written
(`SandboxFlags.SandboxMask`), including the 32-bit truncation described
under "Findings". The corrected callback and its fold
(`SandboxFlags.SandboxFlag`, `SandboxFlags.IntendedMask`) are stated next
to it with the property the truncation breaks.

## Model

| member | source | states |
|---|---|---|
| SpawnArgs.SplitCommand | src/flatpak-spawn.c:834-847 | The option part is the longest run of `-`-prefixed words after argv[0]. The command is everything after it: it starts with a word not beginning with `-`, and option part plus command give back the whole argument list. |
| SpawnEnv.SetVar | src/flatpak-spawn.c:643-669 | `--env=NAME=VALUE` sets NAME to VALUE and cancels an earlier unset of NAME. No other name changes, and the tables stay disjoint and duplicate-free. |
| SpawnEnv.UnsetVar | src/flatpak-spawn.c:671-683 | `--unset-env=NAME` removes NAME from the variables to set and records it as unset. No other name changes. |
| SpawnEnv.SplitAssignment | src/flatpak-spawn.c:652-662 | An entry is accepted exactly when it contains `=` and does not start with it. It splits at the first `=` into a non-empty name without `=`, and name, `=` and value give back the entry. |
| SpawnEnv.SplitJoin | src/flatpak-spawn.c:652-662 | Joining a valid name and any value with `=` and splitting again gives back the same name and value. |
| SpawnEnv.ParseEnvArg | src/flatpak-spawn.c:643-669 | The `--env` argument is accepted iff it has a `=` that is not its first character. When accepted, it reads back as that assignment. When rejected, the error names the argument. |
| SpawnEnv.LastWriterWins | src/flatpak-spawn.c:640-683 | After any sequence of set and unset operations, the tables agree with the last operation on each name: set with its value, unset, or untouched. The tables stay valid. |
| SpawnEnv.EnvBlockRoundTrip | src/flatpak-spawn.c:710-751 | Encoding well-formed assignments as a NUL-separated block and parsing the block back gives the same assignments in the same order. |
| SpawnEnv.EnvBlockEmptyEntries | src/flatpak-spawn.c:720-735 | An empty block holds no assignments. A block that is a single NUL is rejected as an empty entry. |
| SpawnEnv.EnvBlockDoubleNul | src/flatpak-spawn.c:720-735 | Two NULs in a row make an empty entry, which rejects the block. |
| SpawnEnv.EnvBlockStep | src/flatpak-spawn.c:718-751 | A block is parsed one NUL-terminated entry at a time. A malformed entry, or a rejected rest, rejects the block. Otherwise the entry's assignment comes first, followed by the rest's. |
| SpawnEnv.EnvBlockLast | src/flatpak-spawn.c:718-751 | A final entry without a trailing NUL still counts as an assignment. |
| SpawnEnv.FinalNulOptional | src/flatpak-spawn.c:718-751 | Two well-formed assignments with no NUL after the last one parse back as those two assignments, in order. |
| SpawnEnv.JoinedHasNoNul | src/flatpak-spawn.c:718-751 | `NAME=VALUE` contains a NUL only if the name or the value does, so entries built from NUL-free parts do not split. |
| SpawnEnv.EnvBlockNoTrailingNul | src/flatpak-spawn.c:718-751 | `A=1`, NUL, `B=x=y` reads as A=1 and B=`x=y`: only the first `=` splits. |
| SpawnEnv.ParseEnvFdNumber | src/flatpak-spawn.c:697-708 | The `--env-fd` argument is accepted exactly when it is all digits and at most G_MAXINT. The descriptor is its decimal value. |
| SpawnEnv.BlockOps | src/flatpak-spawn.c:736-749 | Each assignment read from the block becomes a set operation, in block order. |
| SpawnEnv.CollectEnv | src/flatpak-spawn.c:643-758 | The environment options are accepted exactly when each one is. The tables are then valid, and every name is in the state its last `--env`, `--env-fd` entry or `--unset-env` left it: set to that value, unset, or untouched. |
| SpawnEnv.EditsAccepted | src/flatpak-spawn.c:643-758 | The environment options give operations exactly when each one is accepted on its own. A rejected `--env`, `--env-fd` or unreadable descriptor anywhere fails the whole parse. |
| SpawnEnv.EveryNameReflects | src/flatpak-spawn.c:640-683 | After the operations, the tables are valid and every name at once agrees with its last operation. |
| SpawnEnv.OrderDecides | src/flatpak-spawn.c:643-683 | `--env=A=1 --unset-env=A` leaves A unset. The reverse order leaves A=1. |
| SandboxFlags.NamedFlag | src/flatpak-spawn.c:331-360 | Each named sandbox flag stands for exactly one bit. |
| SandboxFlags.WholeTextParsed | src/flatpak-spawn.c:361-362 | strtol consumes the whole value exactly when it is all digits. It then yields the decimal value, saturated at LONG_MAX. |
| SandboxFlags.NumericFlag | src/flatpak-spawn.c:361-367 | A value that is not a name is accepted exactly when it is a positive decimal number. |
| SandboxFlags.SandboxFlagAsWritten | src/flatpak-spawn.c:320-371 | The parser as written accepts a name or any positive number. The mask gains the name's bit, or the number's low 32 bits and nothing else. |
| SandboxFlags.TruncatedFlagVanishes | src/flatpak-spawn.c:320-371 | Every positive multiple of 2^32 up to LONG_MAX is accepted as written but adds nothing to the mask. The corrected parser rejects it. Larger numbers saturate to LONG_MAX, which keeps every low bit. |
| SandboxFlags.TruncatedFlagExample | src/flatpak-spawn.c:320-371 | `4294967296` is accepted as written and leaves an empty mask empty. |
| SandboxFlags.SandboxFlag | src/flatpak-spawn.c:320-371 | Corrected parser: a name, or a positive number up to UINT32_MAX, is accepted. The mask gains exactly the name's bit or the number's bits. |
| SandboxFlags.FlagBitsNonZero | src/flatpak-spawn.c:331-367 | Every accepted value, name or number, stands for at least one bit. |
| SandboxFlags.FlagSetsSomeBit | src/flatpak-spawn.c:320-371 | A mask that a flag was added to is never empty. |
| SandboxFlags.MaskOkStep | src/flatpak-spawn.c:320-371 | The parse of a list succeeds exactly when the parse of all but its last value succeeds and the last value is a name or a positive number. |
| SandboxFlags.SandboxMask | src/flatpak-spawn.c:320-371 | When the `--sandbox-flag` values are refused, the error names a value given on the command line that is neither a name nor a positive number. |
| SandboxFlags.MaskAcceptsAll | src/flatpak-spawn.c:320-371 | The option parse succeeds iff every value is a name or a positive decimal number, whatever its size. |
| SandboxFlags.AllTakenStep | src/flatpak-spawn.c:320-371 | Every value of a list is taken exactly when all but the last are and the last one is. |
| SandboxFlags.MaskHoldsEveryFlag | src/flatpak-spawn.c:330-360 | Each named flag given anywhere on the command line has its bit set in the final mask, as the option parse computes it. |
| SandboxFlags.HoldStep | src/flatpak-spawn.c:330-360 | Adding one more value keeps every named bit already in the mask, and a named last value adds its own bit. |
| SandboxFlags.TruncatedMaskExample | src/flatpak-spawn.c:361-365 | `--sandbox-flag=4294967296` alone gives the same empty mask as no flag at all. The corrected fold refuses it. |
| SandboxFlags.IntendedMask | src/flatpak-spawn.c:320-371 | Corrected fold: a successful parse gives a non-zero mask exactly when at least one flag was given. |
| SandboxFlags.IntendedMaskAcceptsAll | src/flatpak-spawn.c:320-371 | Corrected fold: the parse succeeds iff every value is a name or a positive number up to UINT32_MAX. |
| SandboxFlags.IntendedMaskOkStep | src/flatpak-spawn.c:320-371 | Corrected fold: a list parses exactly when all but its last value do and the last value is accepted. |
| SandboxFlags.SandboxFlagExamples | tests/test-spawn.c:1169-1179 | The callback as written rejects `tricolore` and `1e6`, and so does the corrected one. |
| SandboxFlags.NamedFlagExample | tests/test-spawn.c:584-585 | `allow-a11y` gives exactly its own bit, in the callback as written and in the corrected one. |
| PathPrefix.StripSlashes | src/flatpak-spawn.c:500-502 | Stripping leading slashes gives a suffix of the input that does not start with `/`. |
| PathPrefix.PathAfter | src/flatpak-spawn.c:495-526 | What follows the prefix never starts with a slash. |
| PathPrefix.PathAfterElements | src/flatpak-spawn.c:495-526 | `get_path_after` succeeds exactly when the prefix's path elements are a leading run of the string's. What it returns has exactly the remaining elements. Repeated slashes do not matter. |
| PathPrefix.PathAfterSuffix | src/flatpak-spawn.c:495-526 | The result is always the tail of the input string, never new text. |
| PathPrefix.PathAfterStripped | src/flatpak-spawn.c:500-502 | Leading slashes on either argument do not change the result. |
| PathPrefix.GetPathAfter | src/flatpak-spawn.c:495-526 | The pointer-walking loop computes the same answer as the element-wise definition. |
| PathPrefix.SkipSlashes | src/flatpak-spawn.c:500-502 | The slash-skipping loop stops at the first non-slash. |
| PathPrefix.CompareElement | src/flatpak-spawn.c:504-524 | Comparing one element either moves both cursors past a matching element without changing the answer, or shows that the prefix does not match. |
| PathPrefix.ElementMismatch | src/flatpak-spawn.c:511-516 | A differing character inside the prefix's first element means no match. |
| PathPrefix.PathAfterSelf | src/flatpak-spawn.c:495-526 | A path is below itself, with nothing after it. |
| PathPrefix.LongerNameNotBelow | src/flatpak-spawn.c:517-520 | `/foobar` is not below `/foo`: an element has to end where the prefix's does. |
| PathPrefix.ChildIsBelow | src/flatpak-spawn.c:495-526 | `x/z` is below `x`, and what follows is `z`. |
| SpawnFds.ForwardedFd | src/flatpak-spawn.c:947 | Text that does not start with a digit reads as descriptor 0. |
| SpawnFds.AddForwardFd | src/flatpak-spawn.c:945-968 | `--forward-fd` fails exactly for descriptor 0, or for a descriptor other than 1 and 2 that is not open. 1 and 2 change nothing. Any other descriptor gets the next handle and is then closed. |
| SpawnFds.ForwardFdsCloses | src/flatpak-spawn.c:957-966 | After the loop, a descriptor is open exactly when it was open before and is 0, 1, 2 or was not forwarded. |
| SpawnFds.ForwardFdsAcceptsAll | src/flatpak-spawn.c:945-968 | The descriptor table is built iff every `--forward-fd` is acceptable: not 0, and either 1 or 2 or a descriptor that was open and that no earlier `--forward-fd` named. |
| SpawnFds.AcceptStep | src/flatpak-spawn.c:945-968 | A list is accepted exactly when all but its last value are and the last is acceptable after them. |
| SpawnFds.ForwardFdsTable | src/flatpak-spawn.c:914-968 | The descriptor list is stdio followed by the forwarded descriptors in order. Every entry maps a descriptor to the handle of its own slot, and no descriptor is listed twice. |
| SpawnFds.TableStep | src/flatpak-spawn.c:945-968 | One more `--forward-fd` keeps that shape: the descriptor it appends was open, so it is not in the list yet. |
| SpawnFds.ForwardTwiceFails | src/flatpak-spawn.c:957-966 | `--forward-fd=3 --forward-fd=3` with 3 open: the first closes it, and the second cannot be appended. |
| SpawnFds.ForwardFdsKeepsStdio | src/flatpak-spawn.c:921-942 | 0, 1 and 2 are always the first three entries. |
| SpawnFlags.Supports | src/flatpak-spawn.c:417-455 | A portal older than version 3 supports nothing. |
| SpawnFlags.CheckVersion | src/flatpak-spawn.c:406-415 | An option's version gate passes exactly when the portal is at least the version needed. |
| SpawnFlags.PidsFlag | src/flatpak-spawn.c:985-1011 | Without `--share-pids` or `--expose-pids`, no PID flag is set and no gate is checked. |
| SpawnFlags.HostFlags | src/flatpak-spawn.c:977-983 | With `--host` and no portal-only option, the flags never depend on the portal. They are exactly clear-env and watch-bus as requested, in their HostCommand values. |
| SpawnFlags.PortalFlags | src/flatpak-spawn.c:977-1040 | For the portal, each flag's bit is set exactly when its option was given. `--share-pids` takes precedence over `--expose-pids`. No other bit is set. |
| SpawnFlags.SharePidsWithExposeBit | tests/test-spawn.c:1074-1085 | A version 6 portal lets `--share-pids` through. A version 2 portal refuses `--expose-pids` with a version error. |
| UnsetRewrite.UnsetPairs | src/flatpak-spawn.c:1082-1087 | Each unset name becomes one `-u NAME` pair. |
| UnsetRewrite.RewriteArgv | src/flatpak-spawn.c:1063-1090 | The rewritten command starts with `/usr/bin/env` and ends with the original command unchanged. A shell shim comes in between when the command's first word has a `=`. |
| UnsetRewrite.AssignmentCount | src/flatpak-spawn.c:1065-1080 | env(1) reads as many leading `NAME=VALUE` words as there are. |
| UnsetRewrite.PairsReadBack | src/flatpak-spawn.c:1082-1089 | env(1) reads the `-u` pairs back as exactly the set of names to unset. |
| UnsetRewrite.NoAssignments | src/flatpak-spawn.c:1065-1080 | A command whose first word has no `=` is run by env(1) as it is. |
| UnsetRewrite.RewriteRunsCommand | src/flatpak-spawn.c:1044-1094 | Run through env(1), the rewritten command unsets exactly the requested names, sets nothing, and runs the original command. This holds with the shim, too. |
| UnsetRewrite.ShimNeeded | src/flatpak-spawn.c:1065-1080 | Without the shim, env(1) would take a first word with `=` as an assignment and never run the command. |
| SpawnRequest.Stdio | src/flatpak-spawn.c:921-942 | Building the request fails unless 0, 1 and 2 are open. The table then starts with them. |
| SpawnRequest.UnsetStage | src/flatpak-spawn.c:1044-1094 | The unset stage never touches descriptors or flags, and keeps every handle valid. |
| SpawnRequest.GatedOption | src/flatpak-spawn.c:1096-1130 | A gated sub-sandbox option passes exactly when `--host` is not given and the portal is new enough. |
| SpawnRequest.ExposeStage | src/flatpak-spawn.c:1096-1116 | `--sandbox-expose[-ro]` is refused exactly with `--host`. Otherwise it only appends options. |
| SpawnRequest.NamesOption | src/flatpak-spawn.c:1096-1116 | Adding a names option appends it and changes nothing else. |
| SpawnRequest.SandboxFlagsStage | src/flatpak-spawn.c:1118-1130 | A non-zero sandbox-flags mask is refused with `--host` or before portal version 3. Otherwise it only appends an option. |
| SpawnRequest.Opened | src/flatpak-spawn.c:606-637 | Tolerated failures drop the path: only openable paths get a descriptor. |
| SpawnRequest.PathFds | src/flatpak-spawn.c:528-604 | One path descriptor per path, in order. |
| SpawnRequest.AddPaths | src/flatpak-spawn.c:606-637 | `add_paths_to_variant` fails iff errors are not ignored and some path cannot be opened. Each opened path is appended to the descriptor list, and its handle is its new slot, numbered consecutively. |
| SpawnRequest.ExposePathStage | src/flatpak-spawn.c:1132-1170 | `--sandbox-expose-path[-ro][-try]` passes iff none is given, or `--host` is absent, the portal is version 3 or later and every non-try path opens. |
| SpawnRequest.AppPathStage | src/flatpak-spawn.c:1172-1205 | An empty `--app-path` sets the empty-app flag and adds no descriptor. Any other app path must open and becomes `app-fd`. |
| SpawnRequest.UsrPathStage | src/flatpak-spawn.c:1207-1232 | A `--usr-path` must open and becomes `usr-fd`. |
| SpawnRequest.EmptyUsrPathStage | src/flatpak-spawn.c:1207-1232 | `--usr-path=` is refused: for `--host`, or an old portal, by the gate, and otherwise because opening the empty path fails. |
| SpawnRequest.EmptyUsrPathRefused | tests/test-spawn.c:1193-1197 | No request is ever built with an empty `--usr-path`. |
| SpawnRequest.OpenedPath | src/flatpak-spawn.c:1190-1204 | An opened path becomes one more descriptor, and the option's handle refers to it. |
| SpawnRequest.OptionStages | src/flatpak-spawn.c:1096-1232 | With `--host`, the stages pass iff no portal-only option is given. Otherwise they pass iff every gate passes and every strict path opens. Options are only appended, every handle names a path descriptor, and empty-app is set iff `--app-path=` is empty. |
| SpawnRequest.ExposeStages | src/flatpak-spawn.c:1096-1170 | The exposing stages pass exactly when their options are absent on the host, or on the portal they meet version 3 and every strict path opens. They only append options and descriptors, and keep handles valid. |
| SpawnRequest.RootStages | src/flatpak-spawn.c:1172-1232 | The /app and /usr stages pass exactly when neither option is given on the host, or the portal has version 6 and the paths open. Only `--app-path=` with an empty path sets the empty-app flag. |
| SpawnRequest.BuildAccepts | src/flatpak-spawn.c:914-1237 | A request is built exactly when it is admissible: stdio open, forwarded descriptors valid, flag gates passed, and option gates passed. |
| SpawnRequest.BuildCall | src/flatpak-spawn.c:1234-1283 | The request is HostCommand iff `--host`. It runs in `--directory` or else the current directory, and carries the `--env` variables. Its descriptors start with stdio, and every fd-map entry and option handle refers to a slot of the attached list. |
| SpawnRequest.BuildUnsetEnv | src/flatpak-spawn.c:1044-1094 | The command is rewritten iff there are names to unset and the portal cannot take `unset-env`, or `--host` is given. Otherwise `unset-env` is the first option and the command is sent unchanged. |
| SpawnRequest.BuildFlags | src/flatpak-spawn.c:977-1040 | The call's flags are the spawn flags. For the portal, the empty-app bit is added exactly for `--app-path=`. |
| SpawnRequest.HostIgnoresPortal | src/flatpak-spawn.c:891-1237 | With `--host`, what is built does not depend on the portal's version or supports bits. |
| SpawnLaunch.Parse | src/flatpak-spawn.c:298-308 | The option parse succeeds exactly when the environment options, the sandbox flags and the presence of a command all pass. |
| SpawnLaunch.WithoutWatchBus | src/flatpak-spawn.c:1293-1296 | The retried call is the same call with only the watch-bus bit cleared. |
| SpawnLaunch.Send | src/flatpak-spawn.c:1258-1309 | At most two calls are made, and the first is the request. A second call is made only after InvalidArgs with `--watch-bus`, and it drops that flag. Every failure exits 1. |
| SpawnLaunch.SendStarts | src/flatpak-spawn.c:1286-1306 | The child starts exactly when the first call succeeds, or when it fails with InvalidArgs under `--watch-bus` and the retry succeeds. |
| SpawnLaunch.ReadEnvFdsMeaning | src/flatpak-spawn.c:685-758 | An `--env-fd` reads its descriptor exactly when the descriptor was open at the start and no earlier `--env-fd` closed it. Afterwards a descriptor is open exactly when it was open before, and it is one of 0-2 or no `--env-fd` named it. |
| SpawnLaunch.Run | src/flatpak-spawn.c:854-1309 | Every way of failing before the child starts exits 1. |
| SpawnLaunch.RunStarts | src/flatpak-spawn.c:854-1309 | The child starts exactly when all of the following hold: the command line parses with the `--env-fd` descriptors as read; the signal watch and the bus are set up; the request is admissible once the `--env-fd` callbacks have closed their descriptors; and the service accepts it, at the latest on the retry. The first call is the request as built. |
| SpawnLaunch.EnvFdThenForwardFails | src/flatpak-spawn.c:945-964 | A descriptor from 3 up that an `--env-fd` read is closed, so also forwarding it with `--forward-fd` exits 1. |
| SpawnLaunch.VanishingFlagIgnored | src/flatpak-spawn.c:1118-1130 | `--sandbox-flag=4294967296` passes the option parse and leaves the mask 0, so the run goes exactly as without it. With `--host`, the incompatibility check is never reached. |
| SpawnLaunch.HostRefusesPortalOptions | tests/test-spawn.c:1211-1226 | `--host` with any portal-only option exits 1 before calling anything. |
| SpawnRelay.Classify | src/flatpak-spawn.c:77-103 | A normal exit has a code below 256. A death by signal has a signal between 1 and 126. |
| SpawnRelay.ExitCodeFor | src/flatpak-spawn.c:73-106 | The status flatpak-spawn exits with is always 0-255. |
| SpawnRelay.ExitRoundTrip | src/flatpak-spawn.c:77-80 | A child that called exit(c) makes flatpak-spawn exit c. |
| SpawnRelay.SignalRoundTrip | src/flatpak-spawn.c:81-90 | A child killed by a signal makes flatpak-spawn exit 128 plus the signal, with or without a core dump. |
| SpawnRelay.StoppedIsNeither | src/flatpak-spawn.c:91-103 | A stopped-child status is neither kind and gives 70. |
| SpawnRelay.ClassifyExact | src/flatpak-spawn.c:77-103 | Each classification is exactly the wait-status bit pattern that defines it. |
| SpawnRelay.ExitCodeExamples | tests/test-spawn.c:920-987 | Status 0 gives 0, `23 << 8` gives 23, and SIGSEGV with a core dump gives 128 + SIGSEGV. |
| SpawnRelay.OnExited | src/flatpak-spawn.c:55-108 | An exit notification ends flatpak-spawn exactly when it has the `(uu)` signature and names the tracked child. It then exits with the decoded status. |
| SpawnRelay.ForwardSignal | src/flatpak-spawn.c:123-184 | Nothing is forwarded before there is a child. Forwarded signals go to the tracked pid, SIGTSTP is never sent as such, and flatpak-spawn stops itself after a forwarded SIGSTOP. |
| SpawnRelay.ForwardedSignalPlans | src/flatpak-spawn.c:155-184 | Once the child runs, every watched signal is forwarded through the right service. SIGINT, SIGTSTP and SIGCONT go to the process group, Ctrl-Z becomes SIGSTOP, and flatpak-spawn stops itself only for Ctrl-Z. |
| SpawnRelay.EarlySignalPlans | src/flatpak-spawn.c:130-153 | Before the child runs, Ctrl-Z stops flatpak-spawn, SIGCONT is ignored, and other watched signals are re-raised. |
| SpawnRelay.RunRelay | src/flatpak-spawn.c:1312-1327 | Once finished, later events change nothing. |
| SpawnRelay.FirstEndingEventDecides | src/flatpak-spawn.c:55-108 | The first event that ends the loop decides the exit status: the child's exit, the service vanishing (1), or the bus closing (0). Events before it leave the loop running. |
| SpawnRelay.NoEndingEventKeepsRunning | src/flatpak-spawn.c:278-296 | Other children's notifications, other names' owner changes and forwarded signals never end the loop. |
| PortalFront.RunFront | src/xdg-open.c:55-97 | A parse error exits 1. Otherwise `--version` exits 0, then `--manual` or a positional count other than one prints the help and exits 0, then no session bus exits 3. Only then does the tool go on, with its one argument. |
| PortalFront.VersionBeforeHelp | src/xdg-email.c:106-111 | `--version` wins over every reason to print help and does not need the bus. |
| PortalFront.HelpCases | src/xdg-email.c:113-120 | `--manual`, no argument, or several arguments print the help with status 0, bus or not. |
| XdgOpen.Main | src/xdg-open.c:55-168 | At most one portal call is made. It is made exactly when the front goes on and the argument is not an unopenable local file. Status 4 means the call failed, and 5 means the local file could not be opened. |
| XdgOpen.Finish | src/xdg-open.c:155-168 | The one call's outcome: 0 when the portal accepts it, 4 when it reports an error. |
| XdgOpen.RequestShape | src/xdg-open.c:101-153 | A local file is sent with OpenFile as handle 0 of a one-descriptor list. Anything else is sent verbatim with OpenURI. The parent window and options are empty either way. |
| XdgOpen.SuccessMeans | src/xdg-open.c:55-168 | Status 0 means either a version or help request, or a call the portal accepted. |
| XdgOpen.NoCallWithoutProceed | src/xdg-open.c:55-97 | While the front answers by itself, nothing is sent on the bus. |
| XdgEmail.WarnIgnored | src/xdg-email.c:70-79 | The warning names the ignored option and its value. |
| XdgEmail.Warnings | src/xdg-email.c:52-55 | One warning per `--cc`/`--bcc` occurrence, in order. |
| XdgEmail.BaseOptions | src/xdg-email.c:135-149 | The address is always the first entry of the options. |
| XdgEmail.Main | src/xdg-email.c:81-211 | Warnings always come first. Status 2 means exactly that the attachment is not a local, openable file. One ComposeEmail call is made iff the front goes on and the attachment is usable. Status 4 means that call failed. |
| XdgEmail.Finish | src/xdg-email.c:198-210 | The one call's outcome: 0 when the portal accepts it, 4 otherwise. |
| XdgEmail.RequestShape | src/xdg-email.c:135-182 | The address comes first. Subject, body and attachments are present exactly when given, carrying the given text. An attachment is sent as the only descriptor, as index 0. |
| XdgEmail.CcBccIgnored | src/xdg-email.c:70-79 | `--cc` and `--bcc` change only the warnings, never the status, the message or the call. |

## Left out

- The numeric parsers model only plain ASCII digits. `strtol`'s leading
  whitespace and sign are not modelled.
- `--forward-fd=-1` reads as descriptor 0, so the model refuses it with
  status 1. strtol honours the sign, so the source goes on with -1. The
  source's test suite records that the program accepts `--forward-fd=-1`:
  the test expecting it to fail is disabled as one that succeeds
  (tests/test-spawn.c:1154-1167). Nothing in the source shows what then
  happens to -1. A value with text after its digits (`1a`) is modelled:
  it reads as its digit prefix, as with strtol, and passes, as that test
  suite also records.
- SpawnLaunch.Run: a descriptor that an `--env-fd` closed stays closed in
  the model. In the source, the signalfd and the bus connection are opened
  later and may take the freed number, and a `--forward-fd` naming it
  would then forward that descriptor.
- ForwardFds: the duplicates `g_unix_fd_list_append` makes are not added to
  the open set. A later `--forward-fd` that names a duplicate's number is
  refused by the model, whereas the source would forward the duplicate.
- Signal plumbing (signalfd, the signal mask, `raise`, `SIGSTOP` to self)
  is not modelled. The model says only which action each signal leads to.
- The D-Bus transport (serialisation, the descriptor numbers of the
  `fd_list`'s own duplicates, method-call errors other than InvalidArgs) is not modelled.
  A failed call is one reply value.
- Portal version and supports memoisation is not modelled. Each value is
  one read-only input of the request.
- `SpawnRequest.PathFds`: the filesystem side of `path_to_handle` is not
  modelled, including the `~/.var/app` redirect. A path opens or it does
  not; that is an input set.
- GLib hash-table iteration order for the environment and unset tables is
  not modelled. They are modelled as a map and a duplicate-free sequence,
  and contracts speak of names, not of order.
- `env -u` with a name containing `=` is not modelled. env(1) reads such a
  name differently; the model treats every unset name as one pair.
- GOption parsing itself is not modelled: unknown options, `--help`
  output, short flags. Its results are inputs.
- Logging, `--verbose` and the message texts (except xdg-email's
  ignored-option warning) are not modelled. They are not observable
  behaviour of the calls.
- The value of the share-pids supports bit is not modelled, because it is
  not visible in the source. It is a parameter of the portal.
- `g_file_new_for_commandline_arg`/`g_file_is_native` are not modelled.
  They are a map from argument to local path.
- A child pid of 0 reported by the service is not modelled. The relay
  treats 0 as "no child yet", as the source does.

## Findings

| source | as written | input that shows it | evidently intended | confidence | as-written member | corrected member |
|---|---|---|---|---|---|---|
| src/flatpak-spawn.c:320-371 | `opt_sandbox_flags` is declared `gboolean` (a 32-bit int). `val` is a `long`, and `opt_sandbox_flags \|= val` keeps only its low 32 bits, so any positive multiple of 2^32 up to LONG_MAX is accepted but sets no flag. (Larger numbers saturate to LONG_MAX, whose low 32 bits are all set.) | `--host --sandbox-flag=4294967296` is accepted, and since the mask stays 0, the `--host` incompatibility check is never triggered. | Values that do not fit the 32-bit `sandbox-flags` option are rejected, like other unknown values. | not executed | SandboxFlags.SandboxFlagAsWritten, SandboxFlags.TruncatedFlagVanishes, SpawnLaunch.VanishingFlagIgnored | SandboxFlags.SandboxFlag, SandboxFlags.IntendedMask |
