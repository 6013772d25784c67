/**
  The `flags` word of the spawn request and the checks made while building
  it. The host service (`HostCommand`) knows two flags; the sub-sandbox
  portal (`Spawn`) knows more, some of which need a recent enough portal,
  announced through its `version` property, or a feature bit in its
  `supports` property.
 */
module SpawnFlags {
  import opened Basics

  const HOST_CLEAR_ENV: bv32 := 1
  const HOST_WATCH_BUS: bv32 := 2

  const SPAWN_CLEAR_ENV: bv32 := 1
  const SPAWN_LATEST_VERSION: bv32 := 2
  const SPAWN_SANDBOX: bv32 := 4
  const SPAWN_NO_NETWORK: bv32 := 8
  const SPAWN_WATCH_BUS: bv32 := 16
  const SPAWN_EXPOSE_PIDS: bv32 := 32
  const SPAWN_NOTIFY_START: bv32 := 64
  const SPAWN_SHARE_PIDS: bv32 := 128
  const SPAWN_EMPTY_APP: bv32 := 256

  const SUPPORT_EXPOSE_PIDS: bv32 := 1

  /** What the portal announces. `version` is what the `version` property
      read returned (0 when the read failed); `supports` is the raw
      `supports` property; `sharePidsSupport` is the feature bit share-pids
      needs, whose value comes from a header that is not part of this
      model. */
  datatype Portal = Portal(version: nat, supports: bv32, sharePidsSupport: bv32)

  /** `get_portal_supports`: the feature bits only exist from version 3 on;
      an older portal is taken to support nothing. */
  function Supports(p: Portal): (s: bv32)
    ensures p.version < 3 ==> s == 0
  {
    if p.version >= 3 then p.supports else 0
  }

  /** `check_portal_supports` passes when every needed bit is announced. */
  predicate SupportsAll(p: Portal, needed: bv32) {
    Supports(p) & needed == needed
  }

  /** Why a request is refused before it is sent. Each of these makes
      flatpak-spawn exit with status 1. */
  datatype GateError =
    | HostIncompatible(option: string)
    | VersionTooOld(option: string, needed: nat, has: nat)
    | NotSupported(option: string)

  /** `check_portal_version`. */
  function CheckVersion(option: string, p: Portal, needed: nat): (r: Result<(), GateError>)
    ensures r.Ok? <==> p.version >= needed
  {
    if p.version < needed then Err(VersionTooOld(option, needed, p.version)) else Ok(())
  }

  /** The boolean options that end up in the flags word. */
  datatype FlagOptions = FlagOptions(
    clearEnv: bool, watchBus: bool, sharePids: bool, exposePids: bool,
    latestVersion: bool, sandbox: bool, noNetwork: bool)

  /** The options only the sub-sandbox portal understands. */
  predicate PortalOnly(o: FlagOptions) {
    o.sharePids || o.exposePids || o.latestVersion || o.sandbox || o.noNetwork
  }

  /** share-pids and expose-pids: share-pids is checked (and wins) when both
      are given. */
  function PidsFlag(host: bool, o: FlagOptions, p: Portal): (r: Result<bv32, GateError>)
    ensures !o.sharePids && !o.exposePids ==> r == Ok(0)
  {
    if o.sharePids then
      if host then Err(HostIncompatible("share-pids"))
      else if p.version < 5 then Err(VersionTooOld("share-pids", 5, p.version))
      else if !SupportsAll(p, p.sharePidsSupport) then Err(NotSupported("share-pids"))
      else Ok(SPAWN_SHARE_PIDS)
    else if o.exposePids then
      if host then Err(HostIncompatible("expose-pids"))
      else if p.version < 3 then Err(VersionTooOld("expose-pids", 3, p.version))
      else if !SupportsAll(p, SUPPORT_EXPOSE_PIDS) then Err(NotSupported("expose-pids"))
      else Ok(SPAWN_EXPOSE_PIDS)
    else Ok(0)
  }

  /** One of latest-version, sandbox and no-network: refused on the host,
      otherwise it sets its bit. */
  function PortalBit(host: bool, given: bool, option: string, bit: bv32): Result<bv32, GateError> {
    if !given then Ok(0)
    else if host then Err(HostIncompatible(option))
    else Ok(bit)
  }

  /** The flags word as `main` builds it, in its order: clear-env and
      watch-bus (numbered differently for the two services), then the pid
      options, latest-version, sandbox and no-network. */
  function SpawnFlags(host: bool, o: FlagOptions, p: Portal): Result<bv32, GateError> {
    var base :=
      if host then (if o.clearEnv then HOST_CLEAR_ENV else 0) | (if o.watchBus then HOST_WATCH_BUS else 0)
      else (if o.clearEnv then SPAWN_CLEAR_ENV else 0) | (if o.watchBus then SPAWN_WATCH_BUS else 0);
    var pids :- PidsFlag(host, o, p);
    var latest :- PortalBit(host, o.latestVersion, "latest-version", SPAWN_LATEST_VERSION);
    var sandbox :- PortalBit(host, o.sandbox, "sandbox", SPAWN_SANDBOX);
    var noNetwork :- PortalBit(host, o.noNetwork, "no-network", SPAWN_NO_NETWORK);
    Ok(base | pids | latest | sandbox | noNetwork)
  }

  /** The gates the portal must pass for the pid options. */
  predicate PidsGatesPass(o: FlagOptions, p: Portal) {
    && (o.sharePids ==> p.version >= 5 && SupportsAll(p, p.sharePidsSupport))
    && (!o.sharePids && o.exposePids ==> p.version >= 3 && SupportsAll(p, SUPPORT_EXPOSE_PIDS))
  }

  /** The flags are refused exactly when a portal-only option is given for
      the host, or a pid option's gate fails on the portal. */
  lemma SpawnFlagsAccepted(host: bool, o: FlagOptions, p: Portal)
    ensures SpawnFlags(host, o, p).Ok? <==>
      if host then !PortalOnly(o) else PidsGatesPass(o, p)
  {
  }

  /** On the host only the two host bits can be set, each exactly when its
      option is given, and the portal's properties play no part. */
  lemma HostFlags(o: FlagOptions, p: Portal, q: Portal)
    requires !PortalOnly(o)
    ensures SpawnFlags(true, o, p) == SpawnFlags(true, o, q)
    ensures SpawnFlags(true, o, p).Ok?
    ensures var f := SpawnFlags(true, o, p).value;
      && (f & HOST_CLEAR_ENV != 0 <==> o.clearEnv)
      && (f & HOST_WATCH_BUS != 0 <==> o.watchBus)
      && f & !(HOST_CLEAR_ENV | HOST_WATCH_BUS) == 0
  {
    var f := SpawnFlags(true, o, p).value;
    assert f == (if o.clearEnv then HOST_CLEAR_ENV else 0) | (if o.watchBus then HOST_WATCH_BUS else 0);
  }

  /** On the portal each bit is set exactly when its option is given, except
      that expose-pids gives way to share-pids; no other bit is set. */
  lemma PortalFlags(o: FlagOptions, p: Portal)
    requires SpawnFlags(false, o, p).Ok?
    ensures var f := SpawnFlags(false, o, p).value;
      && (f & SPAWN_CLEAR_ENV != 0 <==> o.clearEnv)
      && (f & SPAWN_WATCH_BUS != 0 <==> o.watchBus)
      && (f & SPAWN_SHARE_PIDS != 0 <==> o.sharePids)
      && (f & SPAWN_EXPOSE_PIDS != 0 <==> o.exposePids && !o.sharePids)
      && (f & SPAWN_LATEST_VERSION != 0 <==> o.latestVersion)
      && (f & SPAWN_SANDBOX != 0 <==> o.sandbox)
      && (f & SPAWN_NO_NETWORK != 0 <==> o.noNetwork)
      && f & (SPAWN_NOTIFY_START | SPAWN_EMPTY_APP) == 0
      && f < 256
  {
    var base := (if o.clearEnv then SPAWN_CLEAR_ENV else 0) | (if o.watchBus then SPAWN_WATCH_BUS else 0);
    var pids := PidsFlag(false, o, p).value;
    var latest := if o.latestVersion then SPAWN_LATEST_VERSION else 0;
    var sandbox := if o.sandbox then SPAWN_SANDBOX else 0;
    var noNetwork := if o.noNetwork then SPAWN_NO_NETWORK else 0;
    assert pids == if o.sharePids then SPAWN_SHARE_PIDS else if o.exposePids then SPAWN_EXPOSE_PIDS else 0;
    assert SpawnFlags(false, o, p).value == base | pids | latest | sandbox | noNetwork;
  }

  /** The test suite's portal: version 6; expose-pids support alone also
      lets share-pids through when share-pids needs the same bit. */
  lemma SharePidsWithExposeBit()
    ensures var p := Portal(6, SUPPORT_EXPOSE_PIDS, SUPPORT_EXPOSE_PIDS);
      SpawnFlags(false, FlagOptions(false, false, true, true, false, false, false), p) == Ok(SPAWN_SHARE_PIDS)
    ensures var p := Portal(2, SUPPORT_EXPOSE_PIDS, SUPPORT_EXPOSE_PIDS);
      SpawnFlags(false, FlagOptions(false, false, false, true, false, false, false), p)
        == Err(VersionTooOld("expose-pids", 3, 2))
  {
  }

  /** Flags without notify-start and empty-app lack the empty-app bit. */
  lemma EmptyAppAbsent(f: bv32)
    requires f & (SPAWN_NOTIFY_START | SPAWN_EMPTY_APP) == 0
    ensures f & SPAWN_EMPTY_APP == 0
  {
    assert SPAWN_NOTIFY_START | SPAWN_EMPTY_APP == 320;
  }

  /** Setting the empty-app bit, and clearing it again. */
  lemma EmptyAppAdded(f: bv32)
    requires f & SPAWN_EMPTY_APP == 0
    ensures (f | SPAWN_EMPTY_APP) & SPAWN_EMPTY_APP != 0 && (f | SPAWN_EMPTY_APP) & !SPAWN_EMPTY_APP == f
  {
    assert SPAWN_EMPTY_APP == 256;
  }

  /** Clearing the empty-app bit when it is not set changes nothing. */
  lemma EmptyAppCleared(f: bv32)
    requires f & SPAWN_EMPTY_APP == 0
    ensures f & !SPAWN_EMPTY_APP == f
  {
    assert SPAWN_EMPTY_APP == 256;
  }
}
