/**
  The request flatpak-spawn sends, assembled from the parsed command line in
  the order `main` follows: the descriptor table, the flags word, the
  unset-env handling, then the portal-only options (each refused with
  `--host` and some gated on the portal version), and finally the call
  itself: `HostCommand` on the host service, `Spawn` on the portal.
 */
module SpawnRequest {
  import opened Basics
  import opened SpawnFds
  import opened SpawnFlags
  import opened UnsetRewrite

  /** The command line after option parsing. `unset` lists the names to
      unset in hash-table iteration order (no repeats); a string-array
      option is absent exactly when its list is empty. */
  datatype Options = Options(
    host: bool,
    forwardFds: seq<string>,
    flags: FlagOptions,
    env: map<string, string>,
    unset: seq<string>,
    expose: seq<string>,
    exposeRo: seq<string>,
    sandboxFlags: bv32,
    exposePath: seq<string>,
    exposePathTry: seq<string>,
    exposePathRo: seq<string>,
    exposePathRoTry: seq<string>,
    appPath: Option<string>,
    usrPath: Option<string>,
    directory: Option<string>,
    command: seq<string>)

  /** The paths `open()` succeeds on. The empty path is never one of them:
      opening "" fails with ENOENT. */
  type Openable = s: set<string> | "" !in s witness {}

  /** What the process finds around it: its working directory, the
      descriptors it has open, the paths it can open, and the portal's
      announced properties. */
  datatype World = World(cwd: string, openFds: set<nat>, openable: Openable, portal: Portal)

  /** A value of the `a{sv}` options map. */
  datatype OptValue = Strv(names: seq<string>) | U32(bits: bv32) | Handles(hs: seq<nat>) | Handle(h: nat)

  /** The D-Bus call: the host service takes five arguments and no options
      map; the portal takes six. Both carry the attached descriptor list. */
  datatype Call =
    | HostCommand(cwd: string, argv: seq<string>, fds: seq<(int, nat)>, env: map<string, string>, flags: bv32,
                  attached: seq<Attached>)
    | Spawn(cwd: string, argv: seq<string>, fds: seq<(int, nat)>, env: map<string, string>, flags: bv32,
            options: seq<(string, OptValue)>, attached: seq<Attached>)

  /** Why the request is never sent; each makes flatpak-spawn exit with
      status 1. */
  datatype BuildError =
    | FdFailure(fdError: FdError)
    | Gate(gate: GateError)
    | OpenFailed(path: string)

  /** The request while `main` assembles it. */
  datatype Draft = Draft(attached: seq<Attached>, flags: bv32, argv: seq<string>, options: seq<(string, OptValue)>)

  /** The three standard streams are appended first; appending fails for
      a descriptor this process does not have open. */
  function Stdio(w: World): (r: Result<FdTable, BuildError>)
    ensures r.Ok? <==> {0, 1, 2} <= w.openFds
    ensures r.Ok? ==> r.value == StdioTable
  {
    if 0 !in w.openFds then Err(FdFailure(CantAppendFd(0)))
    else if 1 !in w.openFds then Err(FdFailure(CantAppendFd(1)))
    else if 2 !in w.openFds then Err(FdFailure(CantAppendFd(2)))
    else Ok(StdioTable)
  }

  /** The descriptor table with every `--forward-fd` added. */
  function Fds(o: Options, w: World): Result<FdTable, BuildError> {
    var _ :- Stdio(w);
    match ForwardFds(o.forwardFds, w.openFds)
    case Err(e) => Err(FdFailure(e))
    case Ok(f) => Ok(f.table)
  }

  /** `--unset-env`: a portal of version 5 or later takes the names as the
      `unset-env` option; otherwise the command is rewritten to run
      through env(1). */
  function UnsetStage(o: Options, w: World, d: Draft): (r: Draft)
    requires |d.argv| > 0
    ensures r.attached == d.attached && r.flags == d.flags
    ensures HandlesValid(d) ==> HandlesValid(r)
  {
    if |o.unset| == 0 then d
    else if !o.host && w.portal.version >= 5 then d.(options := d.options + [("unset-env", Strv(o.unset))])
    else d.(argv := RewriteArgv(d.argv, o.unset))
  }

  /** A portal-only option that needs nothing more than the portal. */
  function PortalOption(host: bool, option: string): Result<(), BuildError> {
    if host then Err(Gate(HostIncompatible(option))) else Ok(())
  }

  /** A portal-only option that needs a minimum portal version. */
  function GatedOption(host: bool, option: string, p: Portal, needed: nat): (r: Result<(), BuildError>)
    ensures r.Ok? <==> !host && p.version >= needed
  {
    if host then Err(Gate(HostIncompatible(option)))
    else
      match CheckVersion(option, p, needed)
      case Err(e) => Err(Gate(e))
      case Ok(_) => Ok(())
  }

  /** `--sandbox-expose` and `--sandbox-expose-ro`: names passed on as
      string arrays. */
  function ExposeStage(o: Options, d: Draft): (r: Result<Draft, BuildError>)
    ensures r.Ok? <==> !o.host || (|o.expose| == 0 && |o.exposeRo| == 0)
    ensures r.Ok? ==> Grows(d, r.value) && r.value.attached == d.attached && r.value.flags == d.flags
    ensures r.Ok? && HandlesValid(d) ==> HandlesValid(r.value)
  {
    var d1 :-
      if |o.expose| == 0 then Ok(d)
      else
        var _ :- PortalOption(o.host, "sandbox-expose");
        Ok(NamesOption(d, "sandbox-expose", o.expose));
    if |o.exposeRo| == 0 then Ok(d1)
    else
      var _ :- PortalOption(o.host, "sandbox-expose-ro");
      var d2 := NamesOption(d1, "sandbox-expose-ro", o.exposeRo);
      GrowsTrans(d, d1, d2);
      Ok(d2)
  }

  /** A string-array option appended under `key`. */
  function NamesOption(d: Draft, key: string, names: seq<string>): (r: Draft)
    requires LaterKey(key)
    ensures Grows(d, r) && r.attached == d.attached && r.flags == d.flags
    ensures HandlesValid(d) ==> HandlesValid(r)
  {
    AppendedOption(d.options, (key, Strv(names)));
    assert d.attached[..|d.attached|] == d.attached;
    AppendKeepsHandles(d.attached, d.attached, d.options, (key, Strv(names)));
    d.(options := d.options + [(key, Strv(names))])
  }

  /** `--sandbox-flag`: the accumulated mask, sent when it is not zero. */
  function SandboxFlagsStage(o: Options, w: World, d: Draft): (r: Result<Draft, BuildError>)
    ensures r.Ok? <==> o.sandboxFlags == 0 || (!o.host && w.portal.version >= 3)
    ensures r.Ok? ==> Grows(d, r.value) && r.value.attached == d.attached && r.value.flags == d.flags
    ensures r.Ok? && HandlesValid(d) ==> HandlesValid(r.value)
  {
    if o.sandboxFlags == 0 then
      assert d.attached[..|d.attached|] == d.attached && d.options[..|d.options|] == d.options;
      Ok(d)
    else
      var _ :- GatedOption(o.host, "sandbox-flags", w.portal, 3);
      AppendedOption(d.options, ("sandbox-flags", U32(o.sandboxFlags)));
      assert d.attached[..|d.attached|] == d.attached;
      AppendKeepsHandles(d.attached, d.attached, d.options, ("sandbox-flags", U32(o.sandboxFlags)));
      Ok(d.(options := d.options + [("sandbox-flags", U32(o.sandboxFlags))]))
  }

  /** The paths one `add_paths_to_variant` call opens, in order: all of
      them in strict mode (or it fails), only the openable ones when
      errors are ignored. */
  function Opened(paths: seq<string>, openable: set<string>): (r: seq<string>)
    ensures forall k :: 0 <= k < |r| ==> r[k] in openable
    decreases |paths|
  {
    if |paths| == 0 then []
    else Opened(paths[..|paths| - 1], openable) + (if paths[|paths| - 1] in openable then [paths[|paths| - 1]] else [])
  }

  /** The descriptor-list slots for paths opened in this order. */
  function PathFds(paths: seq<string>): (r: seq<Attached>)
    ensures |r| == |paths|
    ensures forall k :: 0 <= k < |r| ==> r[k] == PathFd(paths[k])
  {
    seq(|paths|, k requires 0 <= k < |paths| => PathFd(paths[k]))
  }

  /** `add_paths_to_variant`: each path is opened and appended to the
      descriptor list, and its handle (its index in that list) collected.
      A path that cannot be opened fails the whole call, unless errors are
      ignored, in which case it is skipped. */
  function AddPaths(attached: seq<Attached>, paths: seq<string>, openable: set<string>, ignoreErrors: bool)
    : (r: Result<(seq<Attached>, seq<nat>), BuildError>)
    ensures r.Ok? ==> |r.value.0| == |attached| + |r.value.1|
    ensures r.Ok? ==> r.value.0[..|attached|] == attached
    ensures r.Ok? ==> forall k :: 0 <= k < |r.value.1| ==> r.value.1[k] == |attached| + k
    ensures r.Ok? <==> ignoreErrors || forall k :: 0 <= k < |paths| ==> paths[k] in openable
    ensures r.Ok? ==> r.value.0[|attached|..] == PathFds(Opened(paths, openable))
    decreases |paths|
  {
    if |paths| == 0 then Ok((attached, []))
    else
      var path := paths[|paths| - 1];
      var (a, hs) :- AddPaths(attached, paths[..|paths| - 1], openable, ignoreErrors);
      assert forall k :: 0 <= k < |paths| - 1 ==> paths[..|paths| - 1][k] == paths[k];
      if path in openable then
        assert (a + [PathFd(path)])[..|attached|] == a[..|attached|];
        assert (a + [PathFd(path)])[|attached|..] == a[|attached|..] + [PathFd(path)];
        Ok((a + [PathFd(path)], hs + [|a|]))
      else if ignoreErrors then Ok((a, hs))
      else Err(OpenFailed(path))
  }

  /** One of `--sandbox-expose-path[-ro]` with its `-try` variant: strict
      paths first, then the optional ones, all into one `ah` option. */
  function ExposePathStage(host: bool, w: World, d: Draft, option: string, key: string, strict: seq<string>, try: seq<string>)
    : (r: Result<Draft, BuildError>)
    requires LaterKey(key)
    ensures r.Ok? <==> ((|strict| == 0 && |try| == 0) ||
      (!host && w.portal.version >= 3 && forall k :: 0 <= k < |strict| ==> strict[k] in w.openable))
    ensures r.Ok? ==> Grows(d, r.value) && r.value.flags == d.flags
    ensures r.Ok? && HandlesValid(d) ==> HandlesValid(r.value)
  {
    if |strict| == 0 && |try| == 0 then Ok(d)
    else
      var _ :- GatedOption(host, option, w.portal, 3);
      var (a1, hs1) :- AddPaths(d.attached, strict, w.openable, false);
      var (a2, hs2) := AddPaths(a1, try, w.openable, true).value;
      var r := Draft(a2, d.flags, d.argv, d.options + [(key, Handles(hs1 + hs2))]);
      assert a2[..|d.attached|] == a1[..|d.attached|];
      AppendedOption(d.options, (key, Handles(hs1 + hs2)));
      PathHandlesValid(d.attached, a1, a2, hs1, hs2, strict, try, w.openable);
      AppendKeepsHandles(d.attached, a2, d.options, (key, Handles(hs1 + hs2)));
      Ok(r)
  }

  /** `--app-path`: the empty path asks for an empty /app and sets a flag;
      any other path is opened and sent as `app-fd`. */
  function AppPathStage(o: Options, w: World, d: Draft): (r: Result<Draft, BuildError>)
    ensures r.Ok? <==> (o.appPath.None? ||
      (!o.host && w.portal.version >= 6 && (o.appPath.value == "" || o.appPath.value in w.openable)))
    ensures r.Ok? ==> Grows(d, r.value)
    ensures r.Ok? && HandlesValid(d) ==> HandlesValid(r.value)
    ensures r.Ok? ==> r.value.flags == if o.appPath == Some("") then d.flags | SPAWN_EMPTY_APP else d.flags
  {
    match o.appPath
    case None => Ok(d)
    case Some(path) =>
      var _ :- GatedOption(o.host, "app-path", w.portal, 6);
      if path == "" then
        assert d.options[..|d.options|] == d.options;
        Ok(d.(flags := d.flags | SPAWN_EMPTY_APP))
      else if path !in w.openable then Err(OpenFailed(path))
      else OpenedPath(d, path, "app-fd")
  }

  /** `--usr-path`: the path is opened and sent as `usr-fd`. */
  function UsrPathStage(o: Options, w: World, d: Draft): (r: Result<Draft, BuildError>)
    ensures r.Ok? <==> (o.usrPath.None? ||
      (!o.host && w.portal.version >= 6 && o.usrPath.value in w.openable))
    ensures r.Ok? ==> Grows(d, r.value) && r.value.flags == d.flags
    ensures r.Ok? && HandlesValid(d) ==> HandlesValid(r.value)
  {
    match o.usrPath
    case None => Ok(d)
    case Some(path) =>
      var _ :- GatedOption(o.host, "usr-path", w.portal, 6);
      if path !in w.openable then Err(OpenFailed(path))
      else OpenedPath(d, path, "usr-fd")
  }

  /** `--usr-path=` is always refused: unlike `--app-path=`, the empty
      path has no special meaning and cannot be opened. */
  lemma EmptyUsrPathStage(o: Options, w: World, d: Draft)
    requires o.usrPath == Some("")
    ensures UsrPathStage(o, w, d) == Err(if o.host then Gate(HostIncompatible("usr-path"))
      else if w.portal.version < 6 then Gate(VersionTooOld("usr-path", 6, w.portal.version)) else OpenFailed(""))
  {
  }

  /** No request is ever built with `--usr-path=`. */
  lemma EmptyUsrPathRefused(o: Options, w: World)
    requires |o.command| > 0 && o.usrPath == Some("")
    ensures Build(o, w).Err?
  {
    BuildAccepts(o, w);
  }

  /** `path_to_handle` succeeding: the opened path is appended to the
      descriptor list and its handle sent under `key`. */
  function OpenedPath(d: Draft, path: string, key: string): (r: Result<Draft, BuildError>)
    requires LaterKey(key)
    ensures r.Ok? && Grows(d, r.value) && r.value.flags == d.flags
    ensures r.value.attached == d.attached + [PathFd(path)]
    ensures HandlesValid(d) ==> HandlesValid(r.value)
  {
    var a := d.attached + [PathFd(path)];
    assert a[..|d.attached|] == d.attached;
    AppendedOption(d.options, (key, Handle(|d.attached|)));
    assert a[|d.attached|] == PathFd(path);
    AppendKeepsHandles(d.attached, a, d.options, (key, Handle(|d.attached|)));
    Ok(Draft(a, d.flags, d.argv, d.options + [(key, Handle(|d.attached|))]))
  }

  /** The option keys the stages after `--unset-env` may add. */
  predicate LaterKey(key: string) {
    key in {"sandbox-expose", "sandbox-expose-ro", "sandbox-flags", "sandbox-expose-fd",
            "sandbox-expose-fd-ro", "app-fd", "usr-fd"}
  }

  predicate IsPrefix<T(==)>(a: seq<T>, b: seq<T>) {
    |a| <= |b| && b[..|a|] == a
  }

  /** What every stage after `--unset-env` keeps: the command, and the
      descriptor list and options as they were, with only entries appended
      (options under the later keys). */
  predicate Grows(d: Draft, r: Draft) {
    && r.argv == d.argv
    && IsPrefix(d.attached, r.attached)
    && IsPrefix(d.options, r.options)
    && forall k :: |d.options| <= k < |r.options| ==> LaterKey(r.options[k].0)
  }

  lemma GrowsTrans(a: Draft, b: Draft, c: Draft)
    requires Grows(a, b) && Grows(b, c)
    ensures Grows(a, c)
  {
    assert c.attached[..|a.attached|] == c.attached[..|b.attached|][..|a.attached|];
    assert c.options[..|a.options|] == c.options[..|b.options|][..|a.options|];
    forall k | |a.options| <= k < |c.options|
      ensures LaterKey(c.options[k].0)
    {
      if k < |b.options| {
        assert c.options[k] == c.options[..|b.options|][k];
      }
    }
  }

  /** Appending one option under a later key. */
  lemma AppendedOption(options: seq<(string, OptValue)>, entry: (string, OptValue))
    ensures (options + [entry])[..|options|] == options
    ensures (options + [entry])[|options|] == entry
  {
  }

  /** Handle `h` names a descriptor opened from a path. */
  predicate PathSlot(attached: seq<Attached>, h: nat) {
    h < |attached| && attached[h].PathFd?
  }

  /** Every handle an option value carries names a descriptor opened from
      a path. */
  predicate HandleOk(attached: seq<Attached>, v: OptValue) {
    match v
    case Handles(hs) => forall j :: 0 <= j < |hs| ==> PathSlot(attached, hs[j])
    case Handle(h) => PathSlot(attached, h)
    case _ => true
  }

  predicate HandlesValidIn(attached: seq<Attached>, options: seq<(string, OptValue)>) {
    forall k :: 0 <= k < |options| ==> HandleOk(attached, options[k].1)
  }

  predicate HandlesValid(d: Draft) {
    HandlesValidIn(d.attached, d.options)
  }

  /** Appending descriptors and then an option whose handles are valid
      keeps all handles valid. */
  lemma AppendKeepsHandles(attached: seq<Attached>, a: seq<Attached>, options: seq<(string, OptValue)>,
                           entry: (string, OptValue))
    requires IsPrefix(attached, a) && HandleOk(a, entry.1)
    ensures HandlesValidIn(attached, options) ==> HandlesValidIn(a, options + [entry])
  {
    if HandlesValidIn(attached, options) {
      KeepHandles(attached, a, options);
      AddHandle(a, options, entry);
    }
  }

  /** Appending descriptors leaves every existing handle valid. */
  lemma KeepHandles(a: seq<Attached>, b: seq<Attached>, options: seq<(string, OptValue)>)
    requires IsPrefix(a, b)
    requires forall k :: 0 <= k < |options| ==> HandleOk(a, options[k].1)
    ensures forall k :: 0 <= k < |options| ==> HandleOk(b, options[k].1)
  {
    forall k | 0 <= k < |options|
      ensures HandleOk(b, options[k].1)
    {
      match options[k].1
      case Handles(hs) =>
        forall j | 0 <= j < |hs|
          ensures PathSlot(b, hs[j])
        {
          assert PathSlot(a, hs[j]);
          assert b[hs[j]] == b[..|a|][hs[j]];
        }
      case Handle(h) =>
        assert b[h] == b[..|a|][h];
      case _ =>
    }
  }

  lemma AddHandle(a: seq<Attached>, options: seq<(string, OptValue)>, entry: (string, OptValue))
    requires forall k :: 0 <= k < |options| ==> HandleOk(a, options[k].1)
    requires HandleOk(a, entry.1)
    ensures forall k :: 0 <= k < |options + [entry]| ==> HandleOk(a, (options + [entry])[k].1)
  {
  }

  /** The handles both `add_paths_to_variant` calls collect name the path
      descriptors they appended. */
  lemma PathHandlesValid(a0: seq<Attached>, a1: seq<Attached>, a2: seq<Attached>, hs1: seq<nat>, hs2: seq<nat>,
                         strict: seq<string>, try: seq<string>, openable: set<string>)
    requires AddPaths(a0, strict, openable, false) == Ok((a1, hs1))
    requires AddPaths(a1, try, openable, true) == Ok((a2, hs2))
    ensures IsPrefix(a0, a2)
    ensures HandleOk(a2, Handles(hs1 + hs2))
  {
    assert a2[..|a0|] == a1[..|a0|];
    forall j | 0 <= j < |hs1 + hs2|
      ensures PathSlot(a2, (hs1 + hs2)[j])
    {
      if j < |hs1| {
        var h := hs1[j];
        assert a1[h] == a1[|a0|..][j];
        assert a2[h] == a2[..|a1|][h];
      } else {
        var h := hs2[j - |hs1|];
        assert a2[h] == a2[|a1|..][j - |hs1|];
      }
    }
  }

  /** The options after the flags word that only the portal understands. */
  predicate LaterPortalOptions(o: Options) {
    || |o.expose| > 0 || |o.exposeRo| > 0 || o.sandboxFlags != 0
    || |o.exposePath| > 0 || |o.exposePathTry| > 0 || |o.exposePathRo| > 0 || |o.exposePathRoTry| > 0
    || o.appPath.Some? || o.usrPath.Some?
  }

  /** Every option `--host` refuses. */
  predicate UsesPortalOptions(o: Options) {
    PortalOnly(o.flags) || LaterPortalOptions(o)
  }

  /** The version gates of the options after the flags word: version 3
      for sandbox flags and exposed paths, version 6 for /app and /usr. */
  predicate OptionGatesPass(o: Options, p: Portal) {
    && ((o.sandboxFlags != 0 || |o.exposePath| > 0 || |o.exposePathTry| > 0
         || |o.exposePathRo| > 0 || |o.exposePathRoTry| > 0) ==> p.version >= 3)
    && (o.appPath.Some? || o.usrPath.Some? ==> p.version >= 6)
  }

  /** Every path that must be opened can be: the strict exposed paths (the
      `-try` ones may fail), a non-empty app path and the usr path. */
  predicate PathsOpen(o: Options, openable: set<string>) {
    && (forall k :: 0 <= k < |o.exposePath| ==> o.exposePath[k] in openable)
    && (forall k :: 0 <= k < |o.exposePathRo| ==> o.exposePathRo[k] in openable)
    && (o.appPath.Some? && o.appPath.value != "" ==> o.appPath.value in openable)
    && (o.usrPath.Some? ==> o.usrPath.value in openable)
  }

  /** Everything after the flags word, up to the call. */
  function OptionStages(o: Options, w: World, d: Draft): (r: Result<Draft, BuildError>)
    requires |d.argv| > 0
    ensures r.Ok? <==>
      if o.host then !LaterPortalOptions(o) else OptionGatesPass(o, w.portal) && PathsOpen(o, w.openable)
    ensures r.Ok? ==> Grows(UnsetStage(o, w, d), r.value)
    ensures r.Ok? && HandlesValid(d) ==> HandlesValid(r.value)
    ensures r.Ok? ==> r.value.flags == if o.appPath == Some("") then d.flags | SPAWN_EMPTY_APP else d.flags
  {
    StagesPass(o, w);
    var d1 := UnsetStage(o, w, d);
    var d4 :- ExposeStages(o, w, d1);
    var d7 :- RootStages(o, w, d4);
    GrowsTrans(d1, d4, d7);
    Ok(d7)
  }

  /** What the exposing stages need: on the host, none of their options;
      on the portal, version 3 for sandbox flags and exposed paths, and
      every strict exposed path openable. */
  predicate ExposeStagesPass(o: Options, w: World) {
    && (!o.host || (|o.expose| == 0 && |o.exposeRo| == 0))
    && (o.sandboxFlags == 0 || (!o.host && w.portal.version >= 3))
    && ((|o.exposePath| == 0 && |o.exposePathTry| == 0) ||
        (!o.host && w.portal.version >= 3 && forall k :: 0 <= k < |o.exposePath| ==> o.exposePath[k] in w.openable))
    && ((|o.exposePathRo| == 0 && |o.exposePathRoTry| == 0) ||
        (!o.host && w.portal.version >= 3 && forall k :: 0 <= k < |o.exposePathRo| ==> o.exposePathRo[k] in w.openable))
  }

  /** What the /app and /usr stages need: on the host, neither option; on
      the portal, version 6 and an openable path (the empty app path needs
      none). */
  predicate RootStagesPass(o: Options, w: World) {
    && (o.appPath.None? ||
        (!o.host && w.portal.version >= 6 && (o.appPath.value == "" || o.appPath.value in w.openable)))
    && (o.usrPath.None? || (!o.host && w.portal.version >= 6 && o.usrPath.value in w.openable))
  }

  /** The two halves together accept exactly the admissible options. */
  lemma StagesPass(o: Options, w: World)
    ensures (ExposeStagesPass(o, w) && RootStagesPass(o, w)) <==>
      if o.host then !LaterPortalOptions(o) else OptionGatesPass(o, w.portal) && PathsOpen(o, w.openable)
  {
  }

  /** `--sandbox-expose[-ro]`, `--sandbox-flag` and
      `--sandbox-expose-path[-ro][-try]`, in that order. */
  function ExposeStages(o: Options, w: World, d: Draft): (r: Result<Draft, BuildError>)
    ensures r.Ok? <==> ExposeStagesPass(o, w)
    ensures r.Ok? ==> Grows(d, r.value) && r.value.flags == d.flags
    ensures r.Ok? && HandlesValid(d) ==> HandlesValid(r.value)
  {
    var d1 :- ExposeStage(o, d);
    var d2 :- SandboxFlagsStage(o, w, d1);
    var d3 :- ExposePathStage(o.host, w, d2, "sandbox-expose-path", "sandbox-expose-fd", o.exposePath, o.exposePathTry);
    var d4 :- ExposePathStage(o.host, w, d3, "sandbox-expose-path-ro", "sandbox-expose-fd-ro", o.exposePathRo, o.exposePathRoTry);
    GrowsTrans(d, d1, d2);
    GrowsTrans(d, d2, d3);
    GrowsTrans(d, d3, d4);
    Ok(d4)
  }

  /** `--app-path` and then `--usr-path`. */
  function RootStages(o: Options, w: World, d: Draft): (r: Result<Draft, BuildError>)
    ensures r.Ok? <==> RootStagesPass(o, w)
    ensures r.Ok? ==> Grows(d, r.value)
    ensures r.Ok? && HandlesValid(d) ==> HandlesValid(r.value)
    ensures r.Ok? ==> r.value.flags == if o.appPath == Some("") then d.flags | SPAWN_EMPTY_APP else d.flags
  {
    var d1 :- AppPathStage(o, w, d);
    var d2 :- UsrPathStage(o, w, d1);
    GrowsTrans(d, d1, d2);
    Ok(d2)
  }

  /** The request `main` sends, or why it exits 1 first. The command is
      never empty here: an empty one is refused while parsing. */
  function Build(o: Options, w: World): Result<Call, BuildError>
    requires |o.command| > 0
  {
    var t :- Fds(o, w);
    var flags :-
      match SpawnFlags.SpawnFlags(o.host, o.flags, w.portal)
      case Err(e) => Err(Gate(e))
      case Ok(f) => Ok(f);
    var d :- OptionStages(o, w, Draft(t.attached, flags, o.command, []));
    var cwd := if o.directory.Some? then o.directory.value else w.cwd;
    if o.host then Ok(HostCommand(cwd, d.argv, t.entries, o.env, d.flags, d.attached))
    else Ok(Spawn(cwd, d.argv, t.entries, o.env, d.flags, d.options, d.attached))
  }

  /** When `main` gets as far as the call: the standard streams and every
      forwarded descriptor are open, and either nothing portal-only is
      asked of the host, or the portal passes every gate and every path
      that must be opened can be. */
  predicate Admissible(o: Options, w: World) {
    && {0, 1, 2} <= w.openFds
    && (forall i :: 0 <= i < |o.forwardFds| ==> AcceptableFd(o.forwardFds, i, w.openFds))
    && if o.host then !UsesPortalOptions(o)
       else PidsGatesPass(o.flags, w.portal) && OptionGatesPass(o, w.portal) && PathsOpen(o, w.openable)
  }

  /** The request is sent exactly when the command line is admissible;
      every other case exits with status 1 first. */
  lemma BuildAccepts(o: Options, w: World)
    requires |o.command| > 0
    ensures Build(o, w).Ok? <==> Admissible(o, w)
  {
    ForwardFdsAcceptsAll(o.forwardFds, w.openFds);
    SpawnFlagsAccepted(o.host, o.flags, w.portal);
  }

  /** Every descriptor-map entry names the slot holding that same fd, and
      every handle in the options names a descriptor opened from a path. */
  predicate CallHandlesValid(c: Call) {
    && (forall k :: 0 <= k < |c.fds| ==> c.fds[k].1 < |c.attached| && c.attached[c.fds[k].1] == Fd(c.fds[k].0))
    && (c.Spawn? ==> HandlesValidIn(c.attached, c.options))
  }

  /** The shape of the request: the host call exactly with `--host`, run
      in `--directory` or else the current directory, with the `--env`
      assignments, the standard streams first in the descriptor map, and
      every handle naming the right descriptor. */
  lemma BuildCall(o: Options, w: World)
    requires |o.command| > 0 && Build(o, w).Ok?
    ensures var c := Build(o, w).value;
      && (c.HostCommand? <==> o.host)
      && c.cwd == (if o.directory.Some? then o.directory.value else w.cwd)
      && c.env == o.env
      && |c.fds| >= 3 && c.fds[..3] == [(0, 0), (1, 1), (2, 2)]
      && CallHandlesValid(c)
  {
    var t := ForwardFds(o.forwardFds, w.openFds).value.table;
    ForwardFdsTable(o.forwardFds, w.openFds);
    ForwardFdsKeepsStdio(o.forwardFds, w.openFds);
    var flags := SpawnFlags.SpawnFlags(o.host, o.flags, w.portal).value;
    var d0 := Draft(t.attached, flags, o.command, []);
    var d := OptionStages(o, w, d0).value;
    var c := Build(o, w).value;
    assert c.attached == d.attached && c.fds == t.entries;
    IndexedInLonger(t, d.attached);
  }

  /** Appending descriptors after the forwarded ones leaves every map entry
      naming its own slot. */
  lemma IndexedInLonger(t: FdTable, attached: seq<Attached>)
    requires Indexed(t) && IsPrefix(t.attached, attached)
    ensures forall k :: 0 <= k < |t.entries| ==>
      t.entries[k].1 < |attached| && attached[t.entries[k].1] == Fd(t.entries[k].0)
  {
    forall k | 0 <= k < |t.entries|
      ensures t.entries[k].1 < |attached| && attached[t.entries[k].1] == Fd(t.entries[k].0)
    {
      assert attached[k] == attached[..|t.attached|][k];
    }
  }

  /** The names to unset are handled by rewriting the command: on the host,
      and on a portal older than version 5. */
  predicate RewritesCommand(o: Options, p: Portal) {
    |o.unset| > 0 && (o.host || p.version < 5)
  }

  /** `--unset-env` reaches the service one way or the other: the argv is
      the env(1) rewrite exactly when the names cannot be sent as the
      `unset-env` option, and that option is present exactly when they
      can (and then comes first). */
  lemma BuildUnsetEnv(o: Options, w: World)
    requires |o.command| > 0 && Build(o, w).Ok?
    ensures var c := Build(o, w).value;
      c.argv == if RewritesCommand(o, w.portal) then RewriteArgv(o.command, o.unset) else o.command
    ensures var c := Build(o, w).value;
      c.Spawn? ==>
        ((|o.unset| > 0 && w.portal.version >= 5) <==>
          exists k :: 0 <= k < |c.options| && c.options[k].0 == "unset-env")
    ensures var c := Build(o, w).value;
      c.Spawn? && |o.unset| > 0 && w.portal.version >= 5 ==> c.options[0] == ("unset-env", Strv(o.unset))
  {
    var t := ForwardFds(o.forwardFds, w.openFds).value.table;
    var flags := SpawnFlags.SpawnFlags(o.host, o.flags, w.portal).value;
    var d0 := Draft(t.attached, flags, o.command, []);
    var d1 := UnsetStage(o, w, d0);
    var d := OptionStages(o, w, d0).value;
    var c := Build(o, w).value;
    assert c.argv == d.argv && (c.Spawn? ==> c.options == d.options);
    if !o.host {
      if |o.unset| > 0 && w.portal.version >= 5 {
        assert d1.options == [("unset-env", Strv(o.unset))];
        assert d.options[0] == d.options[..1][0];
      } else {
        assert d1.options == [];
        UnsetKeyIsNotLater();
        forall k | 0 <= k < |d.options|
          ensures d.options[k].0 != "unset-env"
        {
          assert LaterKey(d.options[k].0);
        }
      }
    }
  }

  lemma UnsetKeyIsNotLater()
    ensures !LaterKey("unset-env")
  {
  }

  /** The flags word sent: on the host exactly the flags built from the
      boolean options; on the portal those plus the empty-/app bit, which
      is set exactly for `--app-path=""`. */
  lemma BuildFlags(o: Options, w: World)
    requires |o.command| > 0 && Build(o, w).Ok?
    ensures SpawnFlags.SpawnFlags(o.host, o.flags, w.portal).Ok?
    ensures var c := Build(o, w).value;
      var f := SpawnFlags.SpawnFlags(o.host, o.flags, w.portal).value;
      && (o.host ==> c.flags == f)
      && (!o.host ==> (c.flags & SPAWN_EMPTY_APP != 0 <==> o.appPath == Some("")) && c.flags & !SPAWN_EMPTY_APP == f)
  {
    var f := SpawnFlags.SpawnFlags(o.host, o.flags, w.portal).value;
    BuildAccepts(o, w);
    if !o.host {
      PortalFlags(o.flags, w.portal);
      EmptyAppAbsent(f);
      if o.appPath == Some("") {
        EmptyAppAdded(f);
      } else {
        EmptyAppCleared(f);
      }
    }
  }

  /** On the host the portal's properties are never consulted: the result
      is the same whatever the portal would have announced. */
  lemma HostIgnoresPortal(o: Options, w: World, q: Portal)
    requires |o.command| > 0 && o.host
    ensures Build(o, w) == Build(o, w.(portal := q))
  {
    var w2 := w.(portal := q);
    assert SpawnFlags.SpawnFlags(o.host, o.flags, w.portal) == SpawnFlags.SpawnFlags(o.host, o.flags, q);
    match Fds(o, w)
    case Err(_) =>
    case Ok(t) =>
      var flags := SpawnFlags.SpawnFlags(o.host, o.flags, w.portal);
      if flags.Ok? {
        var d0 := Draft(t.attached, flags.value, o.command, []);
        HostStagesIgnorePortal(o, w, q, d0);
      }
  }

  lemma HostStagesIgnorePortal(o: Options, w: World, q: Portal, d: Draft)
    requires |d.argv| > 0 && o.host
    ensures OptionStages(o, w, d) == OptionStages(o, w.(portal := q), d)
  {
    var w2 := w.(portal := q);
    var d1 := UnsetStage(o, w, d);
    assert d1 == UnsetStage(o, w2, d);
    assert ExposeStages(o, w, d1) == ExposeStages(o, w2, d1) by {
      HostExposeIgnoresPortal(o, w, q, d1);
    }
    if ExposeStages(o, w, d1).Ok? {
      HostRootIgnoresPortal(o, w, q, ExposeStages(o, w, d1).value);
    }
  }

  lemma HostExposeIgnoresPortal(o: Options, w: World, q: Portal, d: Draft)
    requires o.host
    ensures ExposeStages(o, w, d) == ExposeStages(o, w.(portal := q), d)
  {
    var w2 := w.(portal := q);
    match ExposeStage(o, d)
    case Err(_) =>
    case Ok(d1) =>
      assert SandboxFlagsStage(o, w, d1) == SandboxFlagsStage(o, w2, d1);
  }

  lemma HostRootIgnoresPortal(o: Options, w: World, q: Portal, d: Draft)
    requires o.host
    ensures RootStages(o, w, d) == RootStages(o, w.(portal := q), d)
  {
  }
}
