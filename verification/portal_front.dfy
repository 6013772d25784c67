/**
  The part xdg-open and xdg-email share: both are thin clients of the
  desktop portal that parse their options, answer `--version` and
  `--help`-like requests themselves, insist on exactly one positional
  argument, connect to the session bus, and then make one portal call.
 */
module PortalFront {

  /** What a tool prints on its way out, apart from warnings. */
  datatype Printed = NothingPrinted | ParseErrorMessage | VersionText | HelpText | BusErrorMessage
                   | OpenErrorMessage | CallErrorMessage

  /** Where the shared front of a tool leaves it: either finished, with an
      exit status and a message, or going on with its one argument. */
  datatype Front = Done(code: int, printed: Printed) | Proceed(argument: string)

  /** What the option parser and the session bus give the tool. */
  datatype Invocation = Invocation(parsed: bool, showVersion: bool, showHelp: bool, positional: seq<string>)

  /** An option parse error exits 1; then `--version` exits 0; then
      `--manual`, or anything but exactly one positional argument, prints
      the help and exits 0; then a missing session bus exits 3. Only after
      all that does the tool go on. */
  function RunFront(inv: Invocation, busAvailable: bool): (f: Front)
    ensures f.Proceed? <==>
      inv.parsed && !inv.showVersion && !inv.showHelp && |inv.positional| == 1 && busAvailable
    ensures f.Proceed? ==> f.argument == inv.positional[0]
    ensures f.Done? ==> f.code in {0, 1, 3}
    ensures f.Done? && f.code == 1 <==> !inv.parsed
    ensures f.Done? && f.code == 3 <==> inv.parsed && !inv.showVersion && !inv.showHelp && |inv.positional| == 1 && !busAvailable
    ensures f.Done? && f.printed == VersionText <==> inv.parsed && inv.showVersion
  {
    if !inv.parsed then Done(1, ParseErrorMessage)
    else if inv.showVersion then Done(0, VersionText)
    else if inv.showHelp || |inv.positional| != 1 then Done(0, HelpText)
    else if !busAvailable then Done(3, BusErrorMessage)
    else Proceed(inv.positional[0])
  }

  /** `--version` wins over every reason to print the help, and neither
      needs the bus. */
  lemma VersionBeforeHelp(inv: Invocation, bus: bool)
    requires inv.parsed && inv.showVersion
    ensures RunFront(inv, bus) == Done(0, VersionText)
    ensures RunFront(inv, bus) == RunFront(inv, !bus)
  {
  }

  /** Help is printed, with status 0, for `--manual` and for any number of
      positional arguments but one, whether or not a bus is there. */
  lemma HelpCases(inv: Invocation, bus: bool)
    requires inv.parsed && !inv.showVersion && (inv.showHelp || |inv.positional| != 1)
    ensures RunFront(inv, bus) == Done(0, HelpText)
  {
  }

  /** A value in a portal call's `a{sv}` options. */
  datatype Value = Str(text: string) | Ints(items: seq<int>)

  /** `g_file_new_for_commandline_arg` and `g_file_is_native` together:
      what the desktop makes of an argument. `native` maps each argument
      that names a local file to its path; `openable` holds the paths
      open() succeeds on. */
  datatype Desktop = Desktop(busAvailable: bool, native: map<string, string>, openable: set<string>, callSucceeds: bool)
}
