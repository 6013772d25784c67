/**
  xdg-email inside a sandbox: the one address, with the optional subject,
  body and attachment, is handed to the Email portal's ComposeEmail.
  `--cc` and `--bcc` are accepted for compatibility, warned about and
  dropped.
 */
module XdgEmail {
  import opened Basics
  import opened PortalFront

  /** xdg-email's own options. Each `--cc`/`--bcc` occurrence is kept in
      command-line order together with the option name used. */
  datatype EmailOptions = EmailOptions(
    subject: Option<string>, body: Option<string>, attach: Option<string>, ignored: seq<(string, string)>)

  /** The one call: ComposeEmail with an empty parent window, the options
      dictionary, and the descriptors sent with it. */
  datatype Request = ComposeEmail(parentWindow: string, options: seq<(string, Value)>, fdCount: nat)

  /** The run: exit status, the warnings and the final message printed,
      and the calls made. */
  datatype Outcome = Outcome(code: int, warnings: seq<string>, printed: Printed, calls: seq<Request>)

  /** `warn_ignored_parameter`: the option is accepted, and only a warning
      naming it and its value is printed. */
  function WarnIgnored(option: string, value: string): (w: string)
    ensures |w| > |option| + |value|
  {
    "Option " + option + " is not supported, ignoring value \"" + value + "\"\n"
  }

  /** One warning per ignored option, in order. */
  function Warnings(ignored: seq<(string, string)>): (ws: seq<string>)
    ensures |ws| == |ignored|
    ensures forall k :: 0 <= k < |ws| ==> ws[k] == WarnIgnored(ignored[k].0, ignored[k].1)
  {
    if |ignored| == 0 then [] else [WarnIgnored(ignored[0].0, ignored[0].1)] + Warnings(ignored[1..])
  }

  /** The options dictionary before the attachment: the address always,
      then the subject and the body when given. */
  function BaseOptions(address: string, e: EmailOptions): (opts: seq<(string, Value)>)
    ensures |opts| >= 1 && opts[0] == ("address", Str(address))
  {
    [("address", Str(address))]
      + (if e.subject.Some? then [("subject", Str(e.subject.value))] else [])
      + (if e.body.Some? then [("body", Str(e.body.value))] else [])
  }

  /** `main`. The warnings are printed while the options are parsed, so
      they come first whatever happens after. */
  function Main(inv: Invocation, e: EmailOptions, d: Desktop): (r: Outcome)
    ensures r.warnings == Warnings(e.ignored)
    ensures |r.calls| <= 1
    ensures r.code in {0, 1, 2, 3, 4}
    ensures r.code == 2 <==> RunFront(inv, d.busAvailable).Proceed? && !AttachmentUsable(e, d)
    ensures |r.calls| == 1 <==> RunFront(inv, d.busAvailable).Proceed? && AttachmentUsable(e, d)
    ensures r.code == 4 <==> |r.calls| == 1 && !d.callSucceeds
  {
    var ws := Warnings(e.ignored);
    match RunFront(inv, d.busAvailable)
    case Done(code, printed) => Outcome(code, ws, printed, [])
    case Proceed(address) =>
      var opts := BaseOptions(address, e);
      match e.attach
      case None => Finish(ws, ComposeEmail("", opts, 0), d)
      case Some(file) =>
        if file !in d.native then Outcome(2, ws, OpenErrorMessage, [])
        else if d.native[file] !in d.openable then Outcome(2, ws, OpenErrorMessage, [])
        else Finish(ws, ComposeEmail("", opts + [("attachments", Ints([0]))], 1), d)
  }

  /** The one call and its result. */
  function Finish(ws: seq<string>, req: Request, d: Desktop): (r: Outcome)
    ensures r.calls == [req] && r.warnings == ws
    ensures r.code == 0 <==> d.callSucceeds
    ensures r.code in {0, 4}
  {
    if d.callSucceeds then Outcome(0, ws, NothingPrinted, [req]) else Outcome(4, ws, CallErrorMessage, [req])
  }

  /** No attachment, or one that names a local file open() succeeds on. */
  predicate AttachmentUsable(e: EmailOptions, d: Desktop) {
    e.attach.Some? ==> e.attach.value in d.native && d.native[e.attach.value] in d.openable
  }

  /** Whether `key` is one of the dictionary's keys. */
  predicate HasKey(opts: seq<(string, Value)>, key: string) {
    exists k :: 0 <= k < |opts| && opts[k].0 == key
  }

  /** Every entry under `key` carries the value `v`. */
  predicate KeyCarries(opts: seq<(string, Value)>, key: string, v: Value) {
    forall k :: 0 <= k < |opts| && opts[k].0 == key ==> opts[k].1 == v
  }

  /** The request sent: empty parent window; the address is the one
      positional argument; subject and body are present exactly when
      given and carry the given text; an attachment travels as the one
      descriptor sent, referred to as index 0. */
  lemma RequestShape(inv: Invocation, e: EmailOptions, d: Desktop)
    requires |Main(inv, e, d).calls| == 1
    ensures var q := Main(inv, e, d).calls[0];
      && q.parentWindow == ""
      && q.options[0] == ("address", Str(inv.positional[0]))
      && (HasKey(q.options, "subject") <==> e.subject.Some?)
      && (HasKey(q.options, "body") <==> e.body.Some?)
      && (e.subject.Some? ==> KeyCarries(q.options, "subject", Str(e.subject.value)))
      && (e.body.Some? ==> KeyCarries(q.options, "body", Str(e.body.value)))
      && (HasKey(q.options, "attachments") <==> e.attach.Some?)
      && (e.attach.Some? ==> q.options[|q.options| - 1] == ("attachments", Ints([0])) && q.fdCount == 1)
      && (e.attach.None? ==> q.fdCount == 0)
  {
    var address := inv.positional[0];
    var q := Main(inv, e, d).calls[0];
    var base := BaseOptions(address, e);
    KeysOfBase(address, e);
    if e.attach.Some? {
      var full := base + [("attachments", Ints([0]))];
      assert q.options == full;
      KeysAfterAppend(base, ("attachments", Ints([0])));
      assert !HasKey(base, "attachments");
      assert forall k :: 0 <= k < |base| ==> full[k] == base[k];
    } else {
      assert q.options == base;
    }
  }

  /** The keys of the dictionary before the attachment. */
  lemma KeysOfBase(address: string, e: EmailOptions)
    ensures var b := BaseOptions(address, e);
      && (HasKey(b, "subject") <==> e.subject.Some?)
      && (HasKey(b, "body") <==> e.body.Some?)
      && (e.subject.Some? ==> KeyCarries(b, "subject", Str(e.subject.value)))
      && (e.body.Some? ==> KeyCarries(b, "body", Str(e.body.value)))
      && !HasKey(b, "attachments")
  {
    var b := BaseOptions(address, e);
    assert forall k :: 0 <= k < |b| ==> b[k].0 in {"address", "subject", "body"};
    if e.subject.Some? {
      assert b[1].0 == "subject";
    }
    if e.body.Some? {
      assert b[|b| - 1].0 == "body";
    }
  }

  lemma KeysAfterAppend(opts: seq<(string, Value)>, entry: (string, Value))
    ensures forall key :: HasKey(opts + [entry], key) <==> HasKey(opts, key) || entry.0 == key
  {
    forall key
      ensures HasKey(opts + [entry], key) <==> HasKey(opts, key) || entry.0 == key
    {
      if HasKey(opts, key) {
        var k :| 0 <= k < |opts| && opts[k].0 == key;
        assert (opts + [entry])[k] == opts[k];
      }
      if entry.0 == key {
        assert (opts + [entry])[|opts|] == entry;
      }
    }
  }

  /** `--cc` and `--bcc` change nothing but the warnings: the same run
      without them has the same status, message and calls. */
  lemma CcBccIgnored(inv: Invocation, e: EmailOptions, d: Desktop)
    ensures var r := Main(inv, e, d);
      var plain := Main(inv, e.(ignored := []), d);
      r.code == plain.code && r.printed == plain.printed && r.calls == plain.calls
  {
  }
}
