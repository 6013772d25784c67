/**
  flatpak-spawn from its command line to the started child: the option
  parse (whose callbacks build the environment tables and the sandbox-flags
  mask), the check that a command was given, the signal watch and the bus
  connection, the request, and the call itself, reissued once without the
  watch-bus flag when the service rejects its arguments.
 */
module SpawnLaunch {
  import opened Basics
  import opened SpawnFds
  import opened SpawnFlags
  import opened SpawnEnv
  import opened SandboxFlags
  import opened SpawnRequest

  /** The command line as the option parser sees it, before the callbacks
      run: the environment edits and `--sandbox-flag` values in order. */
  datatype CommandLine = CommandLine(
    host: bool,
    forwardFds: seq<string>,
    flags: FlagOptions,
    envEdits: seq<EnvEdit>,
    expose: seq<string>,
    exposeRo: seq<string>,
    sandboxFlagValues: seq<string>,
    exposePath: seq<string>,
    exposePathTry: seq<string>,
    exposePathRo: seq<string>,
    exposePathRoTry: seq<string>,
    appPath: Option<string>,
    usrPath: Option<string>,
    directory: Option<string>,
    command: seq<string>)

  /** Why the option parse fails. */
  datatype ParseError = EnvRejected(env: EnvError) | FlagRejected(flag: FlagError) | NoCommand

  /** The option parse with its callbacks, then `command_specified`. */
  function Parse(cl: CommandLine): (r: Result<Options, ParseError>)
    ensures r.Ok? <==> CollectEnv(cl.envEdits).Ok? && SandboxMask(cl.sandboxFlagValues).Ok? && |cl.command| > 0
    ensures r.Ok? ==> |r.value.command| > 0 && r.value.command == cl.command
    ensures r.Ok? ==> r.value.host == cl.host && r.value.flags == cl.flags && r.value.forwardFds == cl.forwardFds
    ensures r.Ok? ==> Valid(EnvTables(r.value.env, r.value.unset))
  {
    var tables :- match CollectEnv(cl.envEdits)
      case Err(e) => Err(EnvRejected(e))
      case Ok(t) => Ok(t);
    var mask :- match SandboxMask(cl.sandboxFlagValues)
      case Err(e) => Err(FlagRejected(e))
      case Ok(m) => Ok(m);
    if |cl.command| == 0 then Err(NoCommand)
    else
      Ok(Options(cl.host, cl.forwardFds, cl.flags, tables.env, tables.unset, cl.expose, cl.exposeRo, mask,
                 cl.exposePath, cl.exposePathTry, cl.exposePathRo, cl.exposePathRoTry,
                 cl.appPath, cl.usrPath, cl.directory, cl.command))
  }

  /** The service's answer to one call. */
  datatype Reply = Pid(pid: nat) | InvalidArgs | OtherError

  /** How launching ends: an exit status before any child runs, or the
      child's pid with the calls that were sent. */
  datatype Launch = Exited(code: int) | Started(pid: nat, calls: seq<Call>)

  /** The watch-bus bit of the service the call goes to. */
  function WatchBit(c: Call): bv32 {
    if c.HostCommand? then HOST_WATCH_BUS else SPAWN_WATCH_BUS
  }

  /** The same call with only the watch-bus bit cleared. */
  function WithoutWatchBus(c: Call): (r: Call)
    ensures r.flags & WatchBit(c) == 0
    ensures r.flags | WatchBit(c) == c.flags | WatchBit(c)
    ensures r == c.(flags := r.flags)
  {
    ClearBit(c.flags, WatchBit(c));
    c.(flags := c.flags & !WatchBit(c))
  }

  lemma ClearBit(f: bv32, bit: bv32)
    ensures (f & !bit) & bit == 0
    ensures (f & !bit) | bit == f | bit
  {
  }

  /** The call, retried once without watch-bus when the service says
      InvalidArgs and watch-bus was asked for; every other failure, and a
      failure of the retry, exits 1. `first` and `second` are the answers
      to the first and (if sent) second call. */
  function Send(c: Call, watchBus: bool, first: Reply, second: Reply): (r: Launch)
    ensures r.Started? ==> 1 <= |r.calls| <= 2 && r.calls[0] == c
    ensures r.Exited? ==> r.code == 1
    ensures r.Started? && |r.calls| == 2 ==>
      first.InvalidArgs? && watchBus && r.calls[1] == WithoutWatchBus(c) && second == Pid(r.pid)
    ensures r.Started? && |r.calls| == 1 ==> first == Pid(r.pid)
  {
    match first
    case Pid(pid) => Started(pid, [c])
    case InvalidArgs =>
      if watchBus then
        match second
        case Pid(pid) => Started(pid, [c, WithoutWatchBus(c)])
        case _ => Exited(1)
      else Exited(1)
    case OtherError => Exited(1)
  }

  /** The child starts exactly when the first call succeeds, or it was
      refused for its arguments with watch-bus asked for and the retry
      succeeds. */
  lemma SendStarts(c: Call, watchBus: bool, first: Reply, second: Reply)
    ensures Send(c, watchBus, first, second).Started? <==>
      first.Pid? || (first.InvalidArgs? && watchBus && second.Pid?)
  {
  }

  /** The descriptor an `--env-fd` edit names, when its text is one. */
  function EnvFdOf(e: EnvEdit): (r: Option<nat>)
    ensures r.Some? <==> e.EnvFdArg? && ParseEnvFdNumber(e.fdText).Ok?
    ensures r.Some? ==> r.value == ParseEnvFdNumber(e.fdText).value
  {
    if e.EnvFdArg? then
      match ParseEnvFdNumber(e.fdText)
      case Ok(n) => Some(n)
      case Err(_) => None
    else None
  }

  /** An `--env-fd` callback can read its descriptor: it is open at the
      start and no earlier `--env-fd` has read and closed it. Descriptors
      0 to 2 are never closed. */
  predicate EnvFdReadable(edits: seq<EnvEdit>, i: nat, open: set<nat>)
    requires i < |edits| && EnvFdOf(edits[i]).Some?
  {
    var fd := EnvFdOf(edits[i]).value;
    fd in open && (fd < 3 || forall j :: 0 <= j < i ==> EnvFdOf(edits[j]) != Some(fd))
  }

  /** Still open after the `--env-fd` callbacks: open at the start, and
      either one of 0 to 2 or never named by an `--env-fd`. */
  predicate OpenAfterEnvFds(edits: seq<EnvEdit>, fd: nat, open: set<nat>) {
    fd in open && (fd < 3 || forall j :: 0 <= j < |edits| ==> EnvFdOf(edits[j]) != Some(fd))
  }

  /** The edits as the callbacks read them, and the descriptors left open. */
  datatype EnvFdReads = EnvFdReads(edits: seq<EnvEdit>, open: set<nat>)

  /** The `--env-fd` callbacks in command-line order: reading
      `/proc/self/fd/FD` fails for a descriptor that is not open (the edit's
      `contents` becomes None), and a descriptor from 3 up is closed once
      read. */
  function ReadEnvFds(edits: seq<EnvEdit>, open: set<nat>): (r: EnvFdReads)
    ensures |r.edits| == |edits|
    decreases |edits|
  {
    if |edits| == 0 then EnvFdReads([], open)
    else
      var before := ReadEnvFds(edits[..|edits| - 1], open);
      var e := edits[|edits| - 1];
      match EnvFdOf(e)
      case None => EnvFdReads(before.edits + [e], before.open)
      case Some(fd) =>
        EnvFdReads(before.edits + [if fd in before.open then e else e.(contents := None)],
                   if fd >= 3 then before.open - {fd} else before.open)
  }

  /** Each edit keeps its contents exactly when it is not an `--env-fd` or
      its descriptor is readable at that point, and a descriptor is left
      open exactly when no `--env-fd` closed it. */
  lemma {:induction false} ReadEnvFdsMeaning(edits: seq<EnvEdit>, open: set<nat>)
    ensures var r := ReadEnvFds(edits, open);
      forall i :: 0 <= i < |edits| ==>
        r.edits[i] == if EnvFdOf(edits[i]).Some? && !EnvFdReadable(edits, i, open)
                      then edits[i].(contents := None) else edits[i]
    ensures forall fd: nat :: fd in ReadEnvFds(edits, open).open <==> OpenAfterEnvFds(edits, fd, open)
    decreases |edits|
  {
    if |edits| > 0 {
      var k := |edits| - 1;
      var init := edits[..k];
      ReadEnvFdsMeaning(init, open);
      ReadStep(edits, open);
    }
  }

  /** The last edit's step of ReadEnvFdsMeaning, given it for the others. */
  lemma ReadStep(edits: seq<EnvEdit>, open: set<nat>)
    requires |edits| > 0
    requires var init := edits[..|edits| - 1]; var p := ReadEnvFds(init, open);
      && (forall i :: 0 <= i < |init| ==>
            p.edits[i] == if EnvFdOf(init[i]).Some? && !EnvFdReadable(init, i, open)
                          then init[i].(contents := None) else init[i])
      && (forall fd: nat :: fd in p.open <==> OpenAfterEnvFds(init, fd, open))
    ensures var r := ReadEnvFds(edits, open);
      forall i :: 0 <= i < |edits| ==>
        r.edits[i] == if EnvFdOf(edits[i]).Some? && !EnvFdReadable(edits, i, open)
                      then edits[i].(contents := None) else edits[i]
    ensures forall fd: nat :: fd in ReadEnvFds(edits, open).open <==> OpenAfterEnvFds(edits, fd, open)
  {
    var k := |edits| - 1;
    var init := edits[..k];
    var p := ReadEnvFds(init, open);
    var r := ReadEnvFds(edits, open);
    assert r.edits[..k] == p.edits;
    forall i | 0 <= i < k
      ensures EnvFdOf(edits[i]).Some? ==> (EnvFdReadable(edits, i, open) <==> EnvFdReadable(init, i, open))
    {
      assert edits[i] == init[i];
      assert forall j :: 0 <= j < i ==> edits[j] == init[j];
    }
    if EnvFdOf(edits[k]).Some? {
      var fd := EnvFdOf(edits[k]).value;
      assert fd in p.open <==> EnvFdReadable(edits, k, open) by {
        assert forall j :: 0 <= j < k ==> edits[j] == init[j];
      }
    }
    forall fd: nat
      ensures fd in r.open <==> OpenAfterEnvFds(edits, fd, open)
    {
      assert forall j :: 0 <= j < k ==> edits[j] == init[j];
    }
  }

  /** The command line with the `--env-fd` edits as read. */
  function AsRead(cl: CommandLine, w: World): CommandLine {
    cl.(envEdits := ReadEnvFds(cl.envEdits, w.openFds).edits)
  }

  /** The world once the `--env-fd` callbacks have closed what they read. */
  function AfterEnvFds(cl: CommandLine, w: World): World {
    w.(openFds := ReadEnvFds(cl.envEdits, w.openFds).open)
  }

  /** Everything before the main loop. `signalsWatched` is whether the
      signalfd could be set up, `busAvailable` whether the session bus was
      reached. The option parse reads the `--env-fd` descriptors, and the
      request is built in the world where those from 3 up are closed. */
  function Run(cl: CommandLine, signalsWatched: bool, busAvailable: bool, w: World, first: Reply, second: Reply)
    : (r: Launch)
    ensures r.Exited? ==> r.code == 1
  {
    match Parse(AsRead(cl, w))
    case Err(_) => Exited(1)
    case Ok(o) =>
      if !signalsWatched || !busAvailable then Exited(1)
      else
        match Build(o, AfterEnvFds(cl, w))
        case Err(_) => Exited(1)
        case Ok(c) => Send(c, o.flags.watchBus, first, second)
  }

  /** A child is started exactly when the command line parses (with the
      `--env-fd` descriptors as read), the signal watch and the bus are set
      up, the request is admissible once those descriptors are closed, and
      the service accepts it (at the latest on the retry); the first call
      sent is always the request as built. */
  lemma RunStarts(cl: CommandLine, signalsWatched: bool, busAvailable: bool, w: World, first: Reply, second: Reply)
    ensures var r := Run(cl, signalsWatched, busAvailable, w, first, second);
      r.Started? <==>
        && Parse(AsRead(cl, w)).Ok? && signalsWatched && busAvailable
        && Admissible(Parse(AsRead(cl, w)).value, AfterEnvFds(cl, w))
        && (first.Pid? || (first.InvalidArgs? && cl.flags.watchBus && second.Pid?))
    ensures var r := Run(cl, signalsWatched, busAvailable, w, first, second);
      r.Started? ==> r.calls[0] == Build(Parse(AsRead(cl, w)).value, AfterEnvFds(cl, w)).value
  {
    if Parse(AsRead(cl, w)).Ok? {
      var o := Parse(AsRead(cl, w)).value;
      BuildAccepts(o, AfterEnvFds(cl, w));
      if Build(o, AfterEnvFds(cl, w)).Ok? {
        SendStarts(Build(o, AfterEnvFds(cl, w)).value, o.flags.watchBus, first, second);
      }
    }
  }

  /** A descriptor from 3 up that an `--env-fd` has read is closed, so
      forwarding it as well exits 1. */
  lemma EnvFdThenForwardFails(cl: CommandLine, signalsWatched: bool, busAvailable: bool, w: World,
                              first: Reply, second: Reply, i: nat, k: nat)
    requires i < |cl.envEdits| && EnvFdOf(cl.envEdits[i]).Some? && EnvFdOf(cl.envEdits[i]).value >= 3
    requires k < |cl.forwardFds| && ForwardedFd(cl.forwardFds[k]) == EnvFdOf(cl.envEdits[i]).value
    ensures Run(cl, signalsWatched, busAvailable, w, first, second) == Exited(1)
  {
    var fd := EnvFdOf(cl.envEdits[i]).value;
    ReadEnvFdsMeaning(cl.envEdits, w.openFds);
    assert !OpenAfterEnvFds(cl.envEdits, fd, w.openFds);
    RunStarts(cl, signalsWatched, busAvailable, w, first, second);
    if Parse(AsRead(cl, w)).Ok? {
      assert Parse(AsRead(cl, w)).value.forwardFds == cl.forwardFds;
      assert !AcceptableFd(cl.forwardFds, k, AfterEnvFds(cl, w).openFds);
    }
  }

  /** A `--sandbox-flag` value that is a multiple of 2^32 passes the
      option parse and leaves no trace: the run goes exactly as it would
      without the option, so `--host` does not refuse it either. */
  lemma VanishingFlagIgnored(cl: CommandLine, signalsWatched: bool, busAvailable: bool, w: World,
                             first: Reply, second: Reply)
    requires cl.sandboxFlagValues == ["4294967296"]
    ensures Parse(cl) == Parse(cl.(sandboxFlagValues := []))
    ensures Run(cl, signalsWatched, busAvailable, w, first, second) ==
      Run(cl.(sandboxFlagValues := []), signalsWatched, busAvailable, w, first, second)
  {
    var bare := cl.(sandboxFlagValues := []);
    TruncatedMaskExample();
    SameMaskSameParse(cl, bare);
    SameMaskSameParse(AsRead(cl, w), AsRead(bare, w));
    SameParseSameRun(cl, bare, signalsWatched, busAvailable, w, first, second);
  }

  /** Everything before the main loop depends on the command line only
      through its `--env-fd` edits and the parse of the command line as
      read. */
  lemma SameParseSameRun(cl: CommandLine, other: CommandLine, signalsWatched: bool, busAvailable: bool, w: World,
                         first: Reply, second: Reply)
    requires cl.envEdits == other.envEdits && Parse(AsRead(cl, w)) == Parse(AsRead(other, w))
    ensures Run(cl, signalsWatched, busAvailable, w, first, second) ==
      Run(other, signalsWatched, busAvailable, w, first, second)
  {
  }

  /** The parse reads the `--sandbox-flag` values only through the mask
      they give. */
  lemma SameMaskSameParse(cl: CommandLine, other: CommandLine)
    requires other == cl.(sandboxFlagValues := other.sandboxFlagValues)
    requires SandboxMask(cl.sandboxFlagValues) == SandboxMask(other.sandboxFlagValues)
    ensures Parse(cl) == Parse(other)
  {
  }

  /** `--host` with any portal-only option never reaches the service. */
  lemma HostRefusesPortalOptions(cl: CommandLine, w: World, first: Reply, second: Reply)
    requires cl.host && Parse(cl).Ok? && UsesPortalOptions(Parse(cl).value)
    ensures Run(cl, true, true, w, first, second) == Exited(1)
  {
    if Parse(AsRead(cl, w)).Ok? {
      var o := Parse(AsRead(cl, w)).value;
      assert o == Parse(cl).value.(env := o.env, unset := o.unset);
      BuildAccepts(o, AfterEnvFds(cl, w));
    }
  }
}
