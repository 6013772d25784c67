/**
  xdg-open inside a sandbox: the one argument is handed to the OpenURI
  portal, as an open descriptor (OpenFile) when it names a local file,
  and verbatim (OpenURI) otherwise.
 */
module XdgOpen {
  import opened PortalFront

  /** The portal call. The parent window is always the empty string and
      the options dictionary is always empty; OpenFile sends one
      descriptor and refers to it by handle. */
  datatype Request =
    | OpenFile(parentWindow: string, handle: nat, fdCount: nat, options: seq<(string, Value)>)
    | OpenURI(parentWindow: string, uri: string, options: seq<(string, Value)>)

  /** The run: exit status, what was printed, and the calls made. */
  datatype Outcome = Outcome(code: int, printed: Printed, calls: seq<Request>)

  /** `main`. */
  function Main(inv: Invocation, d: Desktop): (r: Outcome)
    ensures |r.calls| <= 1
    ensures r.code in {0, 1, 3, 4, 5}
    ensures |r.calls| == 1 <==> RunFront(inv, d.busAvailable).Proceed? && Reachable(inv.positional[0], d)
    ensures |r.calls| == 1 ==> r.calls[0] == RequestFor(inv.positional[0], d)
    ensures r.code == 4 <==> |r.calls| == 1 && !d.callSucceeds
    ensures r.code == 5 <==> RunFront(inv, d.busAvailable).Proceed? && !Reachable(inv.positional[0], d)
  {
    match RunFront(inv, d.busAvailable)
    case Done(code, printed) => Outcome(code, printed, [])
    case Proceed(arg) =>
      if arg in d.native then
        if d.native[arg] !in d.openable then Outcome(5, OpenErrorMessage, [])
        else Finish(OpenFile("", 0, 1, []), d)
      else Finish(OpenURI("", arg, []), d)
  }

  /** The one call and its result: status 4 when the portal reports an
      error, 0 otherwise. */
  function Finish(req: Request, d: Desktop): (r: Outcome)
    ensures r.calls == [req]
    ensures r.code == 0 <==> d.callSucceeds
    ensures r.code in {0, 4}
  {
    if d.callSucceeds then Outcome(0, NothingPrinted, [req]) else Outcome(4, CallErrorMessage, [req])
  }

  /** The argument can be handed over: anything that is not a local file,
      or a local file open() succeeds on. */
  predicate Reachable(arg: string, d: Desktop) {
    arg in d.native ==> d.native[arg] in d.openable
  }

  /** The request an argument becomes. */
  function RequestFor(arg: string, d: Desktop): Request {
    if arg in d.native then OpenFile("", 0, 1, []) else OpenURI("", arg, [])
  }

  /** A local file is always sent as handle 0 of a one-descriptor list;
      a URI is sent unchanged; the parent window is empty either way. */
  lemma RequestShape(arg: string, d: Desktop)
    ensures var q := RequestFor(arg, d);
      && q.parentWindow == ""
      && q.options == []
      && (q.OpenFile? <==> arg in d.native)
      && (q.OpenFile? ==> q.handle == 0 && q.fdCount == 1)
      && (q.OpenURI? ==> q.uri == arg)
  {
  }

  /** Status 0 means either that nothing needed doing (version or help)
      or that the portal accepted the one call. */
  lemma SuccessMeans(inv: Invocation, d: Desktop)
    ensures var r := Main(inv, d);
      r.code == 0 <==>
        (inv.parsed && (inv.showVersion || inv.showHelp || |inv.positional| != 1))
        || (|r.calls| == 1 && d.callSucceeds)
  {
  }

  /** Nothing reaches the bus before the front lets the tool go on. */
  lemma NoCallWithoutProceed(inv: Invocation, d: Desktop)
    requires RunFront(inv, d.busAvailable).Done?
    ensures Main(inv, d).calls == []
    ensures Main(inv, d).code == RunFront(inv, d.busAvailable).code
  {
  }
}
