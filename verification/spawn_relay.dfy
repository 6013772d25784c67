/**
  What flatpak-spawn does once the child runs: it waits on the main loop
  for the service's exit notification for its child and exits with a
  status derived from the child's wait status, forwards the signals it
  receives to the child, and gives up when the service leaves the bus.
 */
module SpawnRelay {
  import opened Basics

  /** An unsigned 32-bit D-Bus value. */
  type U32 = x: int | 0 <= x < 0x1_0000_0000

  /** How a wait status reads under the Linux encoding: low 7 bits zero
      means a normal exit with the code in bits 8-15; low 7 bits neither
      zero nor 0x7f means death by the signal in those bits (bit 7, the
      core-dump flag, plays no part); anything else (a stopped child) is
      neither. */
  datatype ChildEnd = ExitedWith(code: nat) | KilledBy(signal: nat) | Neither

  function Classify(status: U32): (e: ChildEnd)
    ensures e.ExitedWith? ==> e.code < 256
    ensures e.KilledBy? ==> 1 <= e.signal < 0x7f
  {
    var low := status % 128;
    if low == 0 then ExitedWith((status / 256) % 256)
    else if low != 0x7f then KilledBy(low)
    else Neither
  }

  /** The exit status flatpak-spawn takes on: the child's own code, 128
      plus the signal (as a shell reports it), or 70 (EX_SOFTWARE). */
  function ExitCodeFor(status: U32): (code: int)
    ensures 0 <= code < 256
  {
    match Classify(status)
    case ExitedWith(c) => c
    case KilledBy(s) => 128 + s
    case Neither => 70
  }

  /** The wait status of a child that called exit(code). */
  function ExitStatus(code: nat): U32
    requires code < 256
  {
    code * 256
  }

  /** The wait status of a child killed by `sig`, with or without a core
      dump. */
  function SignalStatus(sig: nat, core: bool): U32
    requires 1 <= sig < 0x7f
  {
    sig + if core then 0x80 else 0
  }

  /** The wait status of a child stopped by `sig`. */
  function StoppedStatus(sig: nat): U32
    requires sig < 256
  {
    sig * 256 + 0x7f
  }

  /** A normal exit is relayed as its own code. */
  lemma ExitRoundTrip(code: nat)
    requires code < 256
    ensures Classify(ExitStatus(code)) == ExitedWith(code)
    ensures ExitCodeFor(ExitStatus(code)) == code
  {
  }

  /** A death by signal is relayed as 128 plus the signal, core dump or
      not. */
  lemma SignalRoundTrip(sig: nat, core: bool)
    requires 1 <= sig < 0x7f
    ensures Classify(SignalStatus(sig, core)) == KilledBy(sig)
    ensures ExitCodeFor(SignalStatus(sig, core)) == 128 + sig
  {
  }

  /** A stopped child's status is neither kind and is relayed as 70. */
  lemma StoppedIsNeither(sig: nat)
    requires sig < 256
    ensures Classify(StoppedStatus(sig)) == Neither
    ensures ExitCodeFor(StoppedStatus(sig)) == 70
  {
  }

  /** Every status is one of the three encodings: a classification names
      the bits of the status it came from. */
  lemma ClassifyExact(status: U32)
    ensures match Classify(status)
      case ExitedWith(c) => status % 128 == 0 && (status / 256) % 256 == c
      case KilledBy(s) => status % 128 == s && s != 0 && s != 0x7f
      case Neither => status % 128 == 0x7f
  {
  }

  /** A clean exit, exit(23), and SIGSEGV (11) with a core dump. */
  lemma ExitCodeExamples()
    ensures ExitCodeFor(0) == 0
    ensures ExitCodeFor(23 * 256) == 23
    ensures ExitCodeFor(11 + 0x80) == 128 + 11
  {
  }

  /** The exit notification's body: `(uu)` carries the pid and the wait
      status; any other signature is ignored. */
  datatype ExitNotice = PidStatus(pid: U32, status: U32) | OtherSignature

  /** `spawn_exited_cb`: the exit status to take on, if the notification
      is about the tracked child. */
  function OnExited(childPid: U32, n: ExitNotice): (r: Option<int>)
    ensures r.Some? <==> n.PidStatus? && n.pid == childPid
    ensures r.Some? ==> r.value == ExitCodeFor(n.status)
  {
    match n
    case PidStatus(pid, status) => if pid == childPid then Some(ExitCodeFor(status)) else None
    case OtherSignature => None
  }

  /** The signals flatpak-spawn watches and forwards. */
  const SIGHUP := 1
  const SIGINT := 2
  const SIGQUIT := 3
  const SIGUSR1 := 10
  const SIGUSR2 := 12
  const SIGTERM := 15
  const SIGCONT := 18
  const SIGSTOP := 19
  const SIGTSTP := 20
  const SIGTTIN := 21
  const SIGTTOU := 22

  const ForwardedSignals: seq<int> := [SIGHUP, SIGINT, SIGQUIT, SIGTERM, SIGCONT, SIGTSTP, SIGUSR1, SIGUSR2]

  /** What `forward_signal` does with a signal. */
  datatype SignalPlan =
    | StopSelf
    | Ignore
    | Reraise(sig: int)
    | Forward(member: string, pid: U32, sig: int, toProcessGroup: bool, stopSelfAfter: bool)

  predicate IsStopSignal(sig: int) {
    sig == SIGTSTP || sig == SIGSTOP || sig == SIGTTIN || sig == SIGTTOU
  }

  /** With no child yet the signal acts on flatpak-spawn itself: stop
      signals stop it, SIGCONT needs nothing, anything else is delivered
      again, unblocked. With a child, the signal is sent to it through
      the service (SIGTSTP as SIGSTOP; SIGINT, SIGSTOP and SIGCONT to its
      whole process group), and after a SIGSTOP flatpak-spawn stops
      itself too. A failed call is only logged, so it does not appear
      here. */
  function ForwardSignal(childPid: U32, host: bool, sig: int): (p: SignalPlan)
    ensures childPid == 0 ==> !p.Forward?
    ensures p.Forward? ==> p.pid == childPid && p.sig != SIGTSTP
    ensures p.Forward? ==> (p.stopSelfAfter <==> p.sig == SIGSTOP)
  {
    if childPid == 0 then
      if IsStopSignal(sig) then StopSelf
      else if sig == SIGCONT then Ignore
      else Reraise(sig)
    else
      var sent := if sig == SIGTSTP then SIGSTOP else sig;
      var group := sent == SIGINT || sent == SIGSTOP || sent == SIGCONT;
      Forward(if host then "HostCommandSignal" else "SpawnSignal", childPid, sent, group, sent == SIGSTOP)
  }

  /** Each watched signal, once the child runs: Ctrl-C, Ctrl-Z and SIGCONT
      reach the whole group (Ctrl-Z as a real stop, which also stops
      flatpak-spawn), the others only the child, unchanged. */
  lemma ForwardedSignalPlans(childPid: U32, host: bool, i: nat)
    requires childPid != 0 && i < |ForwardedSignals|
    ensures var sig := ForwardedSignals[i];
      var p := ForwardSignal(childPid, host, sig);
      && p.Forward?
      && p.member == (if host then "HostCommandSignal" else "SpawnSignal")
      && p.sig == (if sig == SIGTSTP then SIGSTOP else sig)
      && (p.toProcessGroup <==> sig in {SIGINT, SIGTSTP, SIGCONT})
      && (p.stopSelfAfter <==> sig == SIGTSTP)
  {
  }

  /** Before the child runs, the watched signals keep their usual effect
      on flatpak-spawn: Ctrl-Z stops it, SIGCONT has nothing left to do,
      and the rest are delivered to it again. */
  lemma EarlySignalPlans(host: bool, i: nat)
    requires i < |ForwardedSignals|
    ensures var sig := ForwardedSignals[i];
      ForwardSignal(0, host, sig) ==
        if sig == SIGTSTP then StopSelf else if sig == SIGCONT then Ignore else Reraise(sig)
  {
  }

  /** `name_owner_changed`: the service has left the bus when its name
      lost its owner. */
  predicate ServiceVanished(serviceName: string, name: string, newOwner: string) {
    name == serviceName && newOwner == ""
  }

  /** What the main loop receives. */
  datatype Event =
    | ChildExited(notice: ExitNotice)
    | NameOwnerChanged(name: string, oldOwner: string, newOwner: string)
    | SignalReceived(sig: int)
    | BusClosed

  /** The exit status an event ends flatpak-spawn with, if it does: the
      relayed status of the tracked child, 1 when the service vanished,
      and 0 when the bus connection closed (the loop quits and `main`
      returns normally). */
  function EndsWith(childPid: U32, serviceName: string, ev: Event): Option<int> {
    match ev
    case ChildExited(n) => OnExited(childPid, n)
    case NameOwnerChanged(name, _, to) => if ServiceVanished(serviceName, name, to) then Some(1) else None
    case SignalReceived(_) => None
    case BusClosed => Some(0)
  }

  datatype Relay = Running | Finished(code: int)

  function Step(childPid: U32, serviceName: string, st: Relay, ev: Event): Relay {
    if st.Finished? then st
    else
      match EndsWith(childPid, serviceName, ev)
      case Some(code) => Finished(code)
      case None => Running
  }

  /** The main loop over a run of events, oldest first. */
  function RunRelay(childPid: U32, serviceName: string, st: Relay, events: seq<Event>): (r: Relay)
    ensures st.Finished? ==> r == st
    decreases |events|
  {
    if |events| == 0 then st
    else RunRelay(childPid, serviceName, Step(childPid, serviceName, st, events[0]), events[1..])
  }

  /** The first event that ends flatpak-spawn decides its exit status;
      everything before it (other children's notifications, other names'
      owner changes, forwarded signals) leaves it running. */
  lemma {:induction false} FirstEndingEventDecides(childPid: U32, serviceName: string, events: seq<Event>, i: nat)
    requires i < |events|
    requires forall k :: 0 <= k < i ==> EndsWith(childPid, serviceName, events[k]).None?
    requires EndsWith(childPid, serviceName, events[i]).Some?
    ensures RunRelay(childPid, serviceName, Running, events) == Finished(EndsWith(childPid, serviceName, events[i]).value)
    decreases i
  {
    if i > 0 {
      assert EndsWith(childPid, serviceName, events[0]).None?;
      assert forall k :: 0 <= k < i - 1 ==> events[1..][k] == events[k + 1];
      FirstEndingEventDecides(childPid, serviceName, events[1..], i - 1);
    } else {
      assert Step(childPid, serviceName, Running, events[0]).Finished?;
    }
  }

  /** Without an ending event the loop keeps running. */
  lemma {:induction false} NoEndingEventKeepsRunning(childPid: U32, serviceName: string, events: seq<Event>)
    requires forall k :: 0 <= k < |events| ==> EndsWith(childPid, serviceName, events[k]).None?
    ensures RunRelay(childPid, serviceName, Running, events) == Running
    decreases |events|
  {
    if |events| > 0 {
      assert forall k :: 0 <= k < |events| - 1 ==> events[1..][k] == events[k + 1];
      NoEndingEventKeepsRunning(childPid, serviceName, events[1..]);
    }
  }
}
