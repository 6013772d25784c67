/**
  The descriptor map sent with a spawn request. The request carries a
  descriptor list (the fds attached to the D-Bus message, each addressed by
  its index, its "handle") and a map from the child's fd number to a
  handle. stdin, stdout and stderr always come first; each `--forward-fd`
  then adds the descriptor it names. The list keeps a duplicate of every
  descriptor appended to it, and flatpak-spawn closes the original of each
  forwarded one, so the same descriptor cannot be forwarded twice.
 */
module SpawnFds {
  import opened Basics

  /** What one slot of the attached descriptor list refers to: one of this
      process's descriptors, or a file opened by path for the request. */
  datatype Attached = Fd(fd: int) | PathFd(path: string)

  /** The attached list and the `a{uh}` map built next to it. */
  datatype FdTable = FdTable(attached: seq<Attached>, entries: seq<(int, nat)>)

  const StdioTable: FdTable := FdTable([Fd(0), Fd(1), Fd(2)], [(0, 0), (1, 1), (2, 2)])

  datatype FdError = InvalidFd(text: string) | CantAppendFd(fd: int)

  /** The fd number a `--forward-fd` value names: strtol over the text,
      stored into an `int`, with whatever follows the digits ignored. */
  function ForwardedFd(text: string): (fd: int)
    ensures (|text| == 0 || !IsDigit(text[0])) ==> fd == 0
  {
    TruncateToInt32(ParseLong(text).value)
  }

  /** The table so far, and the descriptors this process still has open. */
  datatype Forwarding = Forwarding(table: FdTable, open: set<nat>)

  /** One `--forward-fd`: fd 0 is refused (it is also what any text without
      leading digits reads as), 1 and 2 are already forwarded, and any other
      descriptor is appended to the list, which fails unless this process
      has it open (a negative number never is). Once appended, the original
      descriptor is closed. */
  function AddForwardFd(f: Forwarding, text: string): (r: Result<Forwarding, FdError>)
    ensures r.Err? <==> ForwardedFd(text) == 0 || (ForwardedFd(text) !in {1, 2} && ForwardedFd(text) !in f.open)
    ensures r.Ok? && ForwardedFd(text) in {1, 2} ==> r.value == f
    ensures r.Ok? && ForwardedFd(text) !in {1, 2} ==>
      && r.value.table.attached == f.table.attached + [Fd(ForwardedFd(text))]
      && r.value.table.entries == f.table.entries + [(ForwardedFd(text), |f.table.attached|)]
      && ForwardedFd(text) in f.open
      && r.value.open == f.open - {ForwardedFd(text)}
  {
    var fd := ForwardedFd(text);
    if fd == 0 then Err(InvalidFd(text))
    else if 0 <= fd <= 2 then Ok(f)
    else if fd !in f.open then Err(CantAppendFd(fd))
    else
      var t := f.table;
      Ok(Forwarding(FdTable(t.attached + [Fd(fd)], t.entries + [(fd, |t.attached|)]), f.open - {fd}))
  }

  /** All `--forward-fd` values in command-line order, starting from the
      three standard streams (which stay open) and the descriptors `valid`
      this process has open; the first bad one ends the run. */
  function ForwardFds(texts: seq<string>, valid: set<nat>): Result<Forwarding, FdError>
    decreases |texts|
  {
    if |texts| == 0 then Ok(Forwarding(StdioTable, valid))
    else
      match ForwardFds(texts[..|texts| - 1], valid)
      case Err(e) => Err(e)
      case Ok(f) => AddForwardFd(f, texts[|texts| - 1])
  }

  /** No value before position `i` names `fd`. */
  predicate NotForwardedBefore(texts: seq<string>, i: nat, fd: int)
    requires i <= |texts|
  {
    forall j :: 0 <= j < i ==> ForwardedFd(texts[j]) != fd
  }

  /** The value at position `i` is one the loop accepts: not 0, and either
      1 or 2, or a descriptor this process had open that no earlier value
      forwarded (and so closed). */
  predicate AcceptableFd(texts: seq<string>, i: nat, valid: set<nat>)
    requires i < |texts|
  {
    var fd := ForwardedFd(texts[i]);
    fd != 0 && (fd in {1, 2} || (fd in valid && NotForwardedBefore(texts, i, fd)))
  }

  /** After the loop, a descriptor is still open exactly when it was open
      before and either is one of the standard three or no value forwarded
      it. */
  lemma {:induction false} ForwardFdsCloses(texts: seq<string>, valid: set<nat>)
    ensures ForwardFds(texts, valid).Ok? ==>
      forall fd: nat :: fd in ForwardFds(texts, valid).value.open <==>
        fd in valid && (fd <= 2 || NotForwardedBefore(texts, |texts|, fd))
    decreases |texts|
  {
    if |texts| > 0 && ForwardFds(texts, valid).Ok? {
      var init := texts[..|texts| - 1];
      ForwardFdsCloses(init, valid);
      forall fd: nat
        ensures NotForwardedBefore(texts, |texts|, fd) <==>
          NotForwardedBefore(init, |init|, fd) && ForwardedFd(texts[|texts| - 1]) != fd
      {
        assert forall j :: 0 <= j < |init| ==> init[j] == texts[j];
      }
    }
  }

  /** The value at position `i` is judged the same in any longer list. */
  lemma AcceptableInLonger(texts: seq<string>, n: nat, i: nat, valid: set<nat>)
    requires i < n <= |texts|
    ensures AcceptableFd(texts[..n], i, valid) <==> AcceptableFd(texts, i, valid)
  {
    assert forall j :: 0 <= j <= i ==> texts[..n][j] == texts[j];
  }

  /** The table is built exactly when every value is acceptable, so a
      descriptor forwarded twice fails the second time. */
  lemma {:induction false} ForwardFdsAcceptsAll(texts: seq<string>, valid: set<nat>)
    ensures ForwardFds(texts, valid).Ok? <==> forall i :: 0 <= i < |texts| ==> AcceptableFd(texts, i, valid)
    decreases |texts|
  {
    if |texts| > 0 {
      var n := |texts| - 1;
      var init := texts[..n];
      ForwardFdsAcceptsAll(init, valid);
      AcceptStep(texts, valid);
      forall i | 0 <= i < n
        ensures AcceptableFd(init, i, valid) <==> AcceptableFd(texts, i, valid)
      {
        AcceptableInLonger(texts, n, i, valid);
      }
    }
  }

  /** A list is accepted exactly when all but its last value are and the
      last one is acceptable after them. */
  lemma AcceptStep(texts: seq<string>, valid: set<nat>)
    requires |texts| > 0
    ensures ForwardFds(texts, valid).Ok? <==>
      ForwardFds(texts[..|texts| - 1], valid).Ok? && AcceptableFd(texts, |texts| - 1, valid)
  {
    var n := |texts| - 1;
    var init := texts[..n];
    var fd := ForwardedFd(texts[n]);
    assert NotForwardedBefore(init, n, fd) <==> NotForwardedBefore(texts, n, fd);
    if ForwardFds(init, valid).Ok? {
      ForwardFdsCloses(init, valid);
      var f := ForwardFds(init, valid).value;
      assert ForwardFds(texts, valid) == AddForwardFd(f, texts[n]);
      if fd >= 3 {
        assert fd in f.open <==> fd in valid && NotForwardedBefore(init, n, fd);
      }
    }
  }

  /** The descriptors the values add, in order: every fd other than the
      three standard ones. */
  function Kept(texts: seq<string>): seq<Attached>
    decreases |texts|
  {
    if |texts| == 0 then []
    else
      var fd := ForwardedFd(texts[|texts| - 1]);
      Kept(texts[..|texts| - 1]) + (if 0 <= fd <= 2 then [] else [Fd(fd)])
  }

  /** Every map entry names a handle whose slot holds that same fd, and
      the handles are exactly the positions of the list, in order. */
  predicate Indexed(t: FdTable) {
    && |t.entries| == |t.attached|
    && forall k :: 0 <= k < |t.entries| ==> t.attached[k] == Fd(t.entries[k].0) && t.entries[k].1 == k
  }

  /** No slot of the list repeats another. */
  predicate Distinct(s: seq<Attached>) {
    forall a, b :: 0 <= a < b < |s| ==> s[a] != s[b]
  }

  /** A descriptor in the kept list was named by some value. */
  lemma {:induction false} KeptNamed(texts: seq<string>, fd: int)
    ensures Fd(fd) in Kept(texts) ==> !NotForwardedBefore(texts, |texts|, fd)
    decreases |texts|
  {
    if |texts| > 0 && Fd(fd) in Kept(texts) {
      var init := texts[..|texts| - 1];
      KeptNamed(init, fd);
      if Fd(fd) in Kept(init) {
        var j :| 0 <= j < |init| && ForwardedFd(init[j]) == fd;
        assert texts[j] == init[j];
      }
    }
  }

  /** A built table maps 0, 1 and 2 to handles 0, 1 and 2, then maps each
      forwarded fd (other than 1 and 2) to the next handle, and never lists
      a descriptor twice. */
  lemma {:induction false} ForwardFdsTable(texts: seq<string>, valid: set<nat>)
    ensures ForwardFds(texts, valid).Ok? ==> TableOf(ForwardFds(texts, valid).value.table, texts)
    decreases |texts|
  {
    if |texts| > 0 && ForwardFds(texts, valid).Ok? {
      ForwardFdsTable(texts[..|texts| - 1], valid);
      TableStep(texts, valid);
    }
  }

  /** The table lists stdio and then the kept descriptors, each entry names
      its own slot, and no slot repeats another. */
  predicate TableOf(t: FdTable, texts: seq<string>) {
    && t.attached == StdioTable.attached + Kept(texts)
    && Indexed(t)
    && Distinct(t.attached)
  }

  /** One more value keeps the table in that shape. */
  lemma TableStep(texts: seq<string>, valid: set<nat>)
    requires |texts| > 0 && ForwardFds(texts, valid).Ok?
    requires ForwardFds(texts[..|texts| - 1], valid).Ok?
    requires TableOf(ForwardFds(texts[..|texts| - 1], valid).value.table, texts[..|texts| - 1])
    ensures TableOf(ForwardFds(texts, valid).value.table, texts)
  {
    var init := texts[..|texts| - 1];
    var fd := ForwardedFd(texts[|texts| - 1]);
    if !(0 <= fd <= 2) {
      ForwardFdsCloses(init, valid);
      KeptNamed(init, fd);
      NewFdIsNew(ForwardFds(init, valid).value, Kept(init), fd);
    }
  }

  /** A descriptor still open, above 2, and not among the kept ones is not
      in the list yet, so appending it keeps the list free of repeats. */
  lemma NewFdIsNew(f: Forwarding, kept: seq<Attached>, fd: int)
    requires f.table.attached == StdioTable.attached + kept && Distinct(f.table.attached)
    requires fd > 2 && Fd(fd) !in kept
    ensures Distinct(f.table.attached + [Fd(fd)])
  {
    assert Fd(fd) !in f.table.attached;
    DistinctSnoc(f.table.attached, Fd(fd));
  }

  /** Appending an element not yet in a list of distinct elements keeps
      them distinct. */
  lemma DistinctSnoc(s: seq<Attached>, x: Attached)
    requires Distinct(s) && x !in s
    ensures Distinct(s + [x])
  {
  }

  /** The standard streams keep their place whatever is forwarded. */
  lemma {:induction false} ForwardFdsKeepsStdio(texts: seq<string>, valid: set<nat>)
    ensures ForwardFds(texts, valid).Ok? ==>
      |ForwardFds(texts, valid).value.table.entries| >= 3
      && ForwardFds(texts, valid).value.table.entries[..3] == StdioTable.entries
    decreases |texts|
  {
    if |texts| > 0 && ForwardFds(texts, valid).Ok? {
      var init := texts[..|texts| - 1];
      ForwardFdsKeepsStdio(init, valid);
      ForwardFdsTable(init, valid);
      var t := ForwardFds(init, valid).value.table;
      assert |t.entries| >= 3;
      assert (t.entries + [(ForwardedFd(texts[|texts| - 1]), |t.attached|)])[..3] == t.entries[..3];
    }
  }

  /** `--forward-fd=3 --forward-fd=3` with descriptor 3 open: the first
      value closes it, so the second cannot be appended. */
  lemma ForwardTwiceFails(valid: set<nat>)
    requires 3 in valid
    ensures ForwardFds(["3"], valid).Ok?
    ensures ForwardFds(["3", "3"], valid) == Err(CantAppendFd(3))
  {
    ForwardedThree();
    assert ["3", "3"][..1] == ["3"];
  }

  lemma ForwardedThree()
    ensures ForwardedFd("3") == 3
  {
    assert DigitPrefixLength("3") == 1;
    assert "3"[..1] == "3";
  }
}
