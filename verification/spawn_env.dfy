/**
  The two environment tables flatpak-spawn builds while its options are
  parsed: the variables to set (`--env=VAR=VALUE` and every entry of an
  `--env-fd` block) and the variables to unset (`--unset-env=VAR`). The
  option callbacks run in command-line order and each one removes its
  name from the other table, so the last operation on a name wins and no
  name is ever in both tables.
 */
module SpawnEnv {
  import opened Basics

  /** The unset table is a hash set in the source; its iteration order is
      unspecified, so it is kept here as a duplicate-free sequence in
      insertion order and every property is stated about its elements. */
  datatype EnvTables = EnvTables(env: map<string, string>, unset: seq<string>)

  const EmptyTables := EnvTables(map[], [])

  predicate NoDuplicates(s: seq<string>) {
    forall i, j :: 0 <= i < j < |s| ==> s[i] != s[j]
  }

  /** What every table state satisfies: no repeated unset name, and no name
      both set and unset. */
  predicate Valid(t: EnvTables) {
    && NoDuplicates(t.unset)
    && forall i :: 0 <= i < |t.unset| ==> t.unset[i] !in t.env
  }

  function Without(s: seq<string>, x: string): (r: seq<string>)
    ensures forall y :: y in r <==> y in s && y != x
    ensures NoDuplicates(s) ==> NoDuplicates(r)
  {
    if |s| == 0 then []
    else if s[0] == x then Without(s[1..], x)
    else
      var rest := Without(s[1..], x);
      assert NoDuplicates(s) ==> s[0] !in s[1..];
      [s[0]] + rest
  }

  /** The effect of one accepted `VAR=VALUE`: VAR is set, is no longer
      unset, and nothing else changes. */
  function SetVar(t: EnvTables, name: string, value: string): (r: EnvTables)
    ensures name in r.env && r.env[name] == value
    ensures name !in r.unset
    ensures forall n :: n != name ==> (n in r.env <==> n in t.env) && (n in r.unset <==> n in t.unset)
    ensures forall n :: n != name && n in t.env ==> r.env[n] == t.env[n]
    ensures Valid(t) ==> Valid(r)
  {
    EnvTables(t.env[name := value], Without(t.unset, name))
  }

  /** The effect of `--unset-env=VAR`: VAR is no longer set, is unset, and
      nothing else changes. Adding a name already present keeps one copy. */
  function UnsetVar(t: EnvTables, name: string): (r: EnvTables)
    ensures name !in r.env
    ensures name in r.unset
    ensures forall n :: n != name ==> (n in r.env <==> n in t.env) && (n in r.unset <==> n in t.unset)
    ensures forall n :: n != name && n in t.env ==> r.env[n] == t.env[n]
    ensures Valid(t) ==> Valid(r)
  {
    EnvTables(t.env - {name}, if name in t.unset then t.unset else t.unset + [name])
  }

  /** Splits `VAR=VALUE` at its first `=`. It fails when there is no `=`
      or the name before it is empty, the rule both `--env` and the
      `--env-fd` block apply. */
  function SplitAssignment(entry: string): (r: Option<(string, string)>)
    ensures r.None? <==> !Contains(entry, '=') || entry[0] == '='
    ensures r.Some? ==> |r.value.0| > 0 && !Contains(r.value.0, '=')
    ensures r.Some? ==> entry == r.value.0 + "=" + r.value.1
  {
    IndexOfContains(entry, '=');
    IndexOfFirst(entry, '=');
    var k := IndexOf(entry, '=');
    if k == |entry| || k == 0 then None
    else
      assert entry == entry[..k] + "=" + entry[k + 1..];
      Some((entry[..k], entry[k + 1..]))
  }

  /** Splitting undoes joining: a well-formed name and any value come back
      out of `NAME=VALUE` unchanged. */
  lemma SplitJoin(name: string, value: string)
    requires |name| > 0 && !Contains(name, '=')
    ensures SplitAssignment(name + "=" + value) == Some((name, value))
  {
    var entry := name + "=" + value;
    assert entry[|name|] == '=';
    assert forall i :: 0 <= i < |name| ==> entry[i] == name[i] && name[i] != '=';
    IndexOfExact(entry, '=', |name|);
    var k := IndexOf(entry, '=');
    assert entry[..k] == name;
    assert entry[k + 1..] == value;
  }

  /** One table operation, already validated. */
  datatype EnvOp = Assign(name: string, value: string) | Remove(name: string)

  function ApplyOp(t: EnvTables, op: EnvOp): EnvTables {
    match op
    case Assign(n, v) => SetVar(t, n, v)
    case Remove(n) => UnsetVar(t, n)
  }

  /** Applies operations in order (defined from the last one back, which is
      how the last-writer-wins proof reads it). */
  function ApplyOps(t: EnvTables, ops: seq<EnvOp>): EnvTables
    decreases |ops|
  {
    if |ops| == 0 then t else ApplyOp(ApplyOps(t, ops[..|ops| - 1]), ops[|ops| - 1])
  }

  /** The last operation in `ops` that names `name`, if any. */
  function LastOpOn(ops: seq<EnvOp>, name: string): Option<EnvOp>
    decreases |ops|
  {
    if |ops| == 0 then None
    else if ops[|ops| - 1].name == name then Some(ops[|ops| - 1])
    else LastOpOn(ops[..|ops| - 1], name)
  }

  /** What a table state says about one name, the independent reading of
      "the last operation wins". */
  predicate Reflects(t: EnvTables, name: string, last: Option<EnvOp>) {
    match last
    case None => name !in t.env && name !in t.unset
    case Some(Assign(_, v)) => name in t.env && t.env[name] == v && name !in t.unset
    case Some(Remove(_)) => name !in t.env && name in t.unset
  }

  /** After any sequence of operations on the empty tables, the tables are
      valid and every name's state is the one its last operation left. */
  lemma {:induction false} LastWriterWins(ops: seq<EnvOp>, name: string)
    ensures Valid(ApplyOps(EmptyTables, ops))
    ensures Reflects(ApplyOps(EmptyTables, ops), name, LastOpOn(ops, name))
    decreases |ops|
  {
    if |ops| > 0 {
      var init := ops[..|ops| - 1];
      LastWriterWins(init, name);
    }
  }

  /** Why the tools reject an environment edit. */
  datatype EnvError =
    | InvalidEnvFormat(text: string)
    | InvalidEnvFd(text: string)
    | EnvFdUnreadable(fd: nat)
    | BadBlockEntry(entry: string)

  /** The `--env=VAR=VALUE` callback: a valid assignment becomes an
      operation, anything else is an option error. */
  function ParseEnvArg(text: string): (r: Result<EnvOp, EnvError>)
    ensures r.Ok? <==> Contains(text, '=') && text[0] != '='
    ensures r.Ok? ==> r.value.Assign? && text == r.value.name + "=" + r.value.value
    ensures r.Err? ==> r.error == InvalidEnvFormat(text)
  {
    match SplitAssignment(text)
    case None => Err(InvalidEnvFormat(text))
    case Some((n, v)) => Ok(Assign(n, v))
  }

  /** Parses the NUL-separated `VAR=VALUE` entries of an `--env-fd` block.
      Each entry ends at the next NUL or at the end of the block; the NUL
      after an entry is skipped, so only one trailing NUL is tolerated and
      an empty entry anywhere else is rejected. */
  function ParseEnvBlock(block: string): Result<seq<(string, string)>, EnvError>
    decreases |block|
  {
    if |block| == 0 then Ok([])
    else
      var len := IndexOf(block, '\0');
      var entry := block[..len];
      match SplitAssignment(entry)
      case None => Err(BadBlockEntry(entry))
      case Some(pair) =>
        var rest := if len < |block| then block[len + 1..] else [];
        match ParseEnvBlock(rest)
        case Err(e) => Err(e)
        case Ok(tail) => Ok([pair] + tail)
  }

  predicate WellFormedEntry(e: (string, string)) {
    |e.0| > 0 && !Contains(e.0, '=') && !Contains(e.0, '\0') && !Contains(e.1, '\0')
  }

  /** The block `env -0` writes for these entries: each `NAME=VALUE`
      followed by a NUL. */
  function EncodeEnvBlock(entries: seq<(string, string)>): string {
    if |entries| == 0 then []
    else entries[0].0 + "=" + entries[0].1 + "\0" + EncodeEnvBlock(entries[1..])
  }

  /** Round trip: parsing what `env -0` writes gives back the entries. */
  lemma {:induction false} EnvBlockRoundTrip(entries: seq<(string, string)>)
    requires forall i :: 0 <= i < |entries| ==> WellFormedEntry(entries[i])
    ensures ParseEnvBlock(EncodeEnvBlock(entries)) == Ok(entries)
    decreases |entries|
  {
    if |entries| > 0 {
      var e := entries[0];
      var entry := e.0 + "=" + e.1;
      var rest := EncodeEnvBlock(entries[1..]);
      var block := EncodeEnvBlock(entries);
      assert block == entry + "\0" + rest;
      assert block[|entry|] == '\0';
      assert forall i :: 0 <= i < |e.0| ==> block[i] == e.0[i] && e.0[i] != '\0';
      assert forall j :: 0 <= j < |e.1| ==> block[|e.0| + 1 + j] == e.1[j] && e.1[j] != '\0';
      assert forall i :: 0 <= i < |entry| ==> block[i] != '\0';
      IndexOfExact(block, '\0', |entry|);
      var len := IndexOf(block, '\0');
      assert block[..len] == entry;
      assert block[len + 1..] == rest;
      SplitJoin(e.0, e.1);
      EnvBlockRoundTrip(entries[1..]);
      assert entries == [e] + entries[1..];
    }
  }

  /** An empty block sets nothing, but a lone NUL is an empty entry and
      is rejected. */
  lemma EnvBlockEmptyEntries()
    ensures ParseEnvBlock("") == Ok([])
    ensures ParseEnvBlock("\0").Err?
  {
    assert IndexOf("\0", '\0') == 0;
    assert "\0"[..0] == "";
  }

  /** Only one NUL may follow the last entry: `A=1` NUL NUL has an empty
      second entry. */
  lemma EnvBlockDoubleNul()
    ensures ParseEnvBlock("A=1\0\0").Err?
  {
    var a := "A=1";
    assert "A=1\0\0" == a + "\0" + "\0";
    assert !Contains(a, '\0');
    SplitJoin("A", "1");
    assert a == "A" + "=" + "1";
    EnvBlockEmptyEntries();
    EnvBlockStep(a, "\0");
  }

  /** Parsing an entry that is followed by a NUL. */
  lemma EnvBlockStep(entry: string, rest: string)
    requires |entry| > 0 && !Contains(entry, '\0')
    ensures SplitAssignment(entry).None? ==> ParseEnvBlock(entry + "\0" + rest).Err?
    ensures SplitAssignment(entry).Some? && ParseEnvBlock(rest).Err? ==> ParseEnvBlock(entry + "\0" + rest).Err?
    ensures SplitAssignment(entry).Some? && ParseEnvBlock(rest).Ok? ==>
      ParseEnvBlock(entry + "\0" + rest) == Ok([SplitAssignment(entry).value] + ParseEnvBlock(rest).value)
  {
    var block := entry + "\0" + rest;
    assert forall i :: 0 <= i < |entry| ==> block[i] == entry[i] && entry[i] != '\0';
    assert block[|entry|] == '\0';
    IndexOfExact(block, '\0', |entry|);
    assert block[..|entry|] == entry;
    assert block[|entry| + 1..] == rest;
  }

  /** Parsing a final entry that has no NUL after it. */
  lemma EnvBlockLast(entry: string)
    requires |entry| > 0 && !Contains(entry, '\0')
    requires SplitAssignment(entry).Some?
    ensures ParseEnvBlock(entry) == Ok([SplitAssignment(entry).value])
  {
    assert forall i :: 0 <= i < |entry| ==> entry[i] != '\0';
    IndexOfExact(entry, '\0', |entry|);
    assert entry[..|entry|] == entry;
    var pair := SplitAssignment(entry).value;
    var none: string := [];
    assert ParseEnvBlock(none) == Ok([]);
    assert [pair] + [] == [pair];
  }

  /** The last entry needs no NUL after it: a block that ends right after
      its last value parses like one that ends with a NUL. */
  lemma FinalNulOptional(first: (string, string), last: (string, string))
    requires WellFormedEntry(first) && WellFormedEntry(last)
    ensures ParseEnvBlock((first.0 + "=" + first.1) + "\0" + (last.0 + "=" + last.1)) == Ok([first, last])
  {
    var a := first.0 + "=" + first.1;
    var d := last.0 + "=" + last.1;
    JoinedHasNoNul(first.0, first.1);
    JoinedHasNoNul(last.0, last.1);
    SplitJoin(first.0, first.1);
    SplitJoin(last.0, last.1);
    EnvBlockLast(d);
    EnvBlockStep(a, d);
    assert [first] + [last] == [first, last];
  }

  /** `NAME=VALUE` has no NUL when neither part has one. */
  lemma JoinedHasNoNul(name: string, value: string)
    requires !Contains(name, '\0') && !Contains(value, '\0')
    ensures !Contains(name + "=" + value, '\0')
  {
    var entry := name + "=" + value;
    forall i | 0 <= i < |entry|
      ensures entry[i] != '\0'
    {
      if i < |name| {
        assert entry[i] == name[i];
      } else if i > |name| {
        assert entry[i] == value[i - |name| - 1];
      }
    }
  }

  /** The test suite's block `A=1` NUL `B=x=y`: no NUL after the last
      entry, and a value may itself contain `=`. */
  lemma EnvBlockNoTrailingNul()
    ensures ParseEnvBlock("A=1" + "\0" + "B=x=y") == Ok([("A", "1"), ("B", "x=y")])
  {
    var first, last := ("A", "1"), ("B", "x=y");
    assert "A=1" + "\0" + "B=x=y" == (first.0 + "=" + first.1) + "\0" + (last.0 + "=" + last.1);
    assert WellFormedEntry(first) by {
      assert forall i :: 0 <= i < |first.0| ==> first.0[i] != '=' && first.0[i] != '\0';
      assert forall i :: 0 <= i < |first.1| ==> first.1[i] != '\0';
    }
    assert WellFormedEntry(last) by {
      assert forall i :: 0 <= i < |last.0| ==> last.0[i] != '=' && last.0[i] != '\0';
      assert forall i :: 0 <= i < |last.1| ==> last.1[i] != '\0';
    }
    FinalNulOptional(first, last);
  }

  /** The `--env-fd=FD` argument: g_ascii_strtoull must consume the whole
      text (which the empty text does, giving descriptor 0) and the value
      must fit in an `int`. */
  function ParseEnvFdNumber(text: string): (r: Result<nat, EnvError>)
    ensures r.Ok? <==> AllDigits(text) && DecimalValue(text) <= INT32_MAX
    ensures r.Ok? ==> r.value == DecimalValue(text)
    ensures r.Err? ==> r.error == InvalidEnvFd(text)
  {
    var n := DigitPrefixLength(text);
    if n != |text| then
      assert !IsDigit(text[n]);
      Err(InvalidEnvFd(text))
    else
      assert text[..n] == text;
      var v := DecimalValue(text);
      if v > INT32_MAX then Err(InvalidEnvFd(text)) else Ok(v)
  }

  /** One environment option as it appears on the command line. For
      `--env-fd`, `contents` is what reading `/proc/self/fd/FD` yields
      (None when the read fails). */
  datatype EnvEdit =
    | EnvArg(text: string)
    | UnsetEnvArg(name: string)
    | EnvFdArg(fdText: string, contents: Option<string>)

  function BlockOps(entries: seq<(string, string)>): (ops: seq<EnvOp>)
    ensures |ops| == |entries|
    ensures forall i :: 0 <= i < |ops| ==> ops[i] == Assign(entries[i].0, entries[i].1)
  {
    if |entries| == 0 then [] else [Assign(entries[0].0, entries[0].1)] + BlockOps(entries[1..])
  }

  /** The operations one edit contributes, or why the option is rejected. */
  function EditOps(edit: EnvEdit): Result<seq<EnvOp>, EnvError> {
    match edit
    case EnvArg(text) =>
      var op :- ParseEnvArg(text);
      Ok([op])
    case UnsetEnvArg(name) => Ok([Remove(name)])
    case EnvFdArg(fdText, contents) =>
      var fd :- ParseEnvFdNumber(fdText);
      if contents.None? then Err(EnvFdUnreadable(fd))
      else
        var entries :- ParseEnvBlock(contents.value);
        Ok(BlockOps(entries))
  }

  /** All edits in command-line order; the first rejected one stops the
      parse. */
  function EditsOps(edits: seq<EnvEdit>): Result<seq<EnvOp>, EnvError>
    decreases |edits|
  {
    if |edits| == 0 then Ok([])
    else
      var first :- EditOps(edits[0]);
      var rest :- EditsOps(edits[1..]);
      Ok(first + rest)
  }

  /** The tables the option parser leaves behind: the parse succeeds
      exactly when every edit is accepted, and then the tables are valid
      and every name is in the state its last operation left it in. */
  function CollectEnv(edits: seq<EnvEdit>): (r: Result<EnvTables, EnvError>)
    ensures r.Ok? <==> forall i :: 0 <= i < |edits| ==> EditOps(edits[i]).Ok?
    ensures r.Ok? ==> Valid(r.value)
    ensures r.Ok? ==>
      && EditsOps(edits).Ok?
      && forall name :: Reflects(r.value, name, LastOpOn(EditsOps(edits).value, name))
  {
    EditsAccepted(edits);
    var ops :- EditsOps(edits);
    EveryNameReflects(ops);
    Ok(ApplyOps(EmptyTables, ops))
  }

  /** Every name's state after the operations is the one its last
      operation left. */
  lemma EveryNameReflects(ops: seq<EnvOp>)
    ensures Valid(ApplyOps(EmptyTables, ops))
    ensures forall name :: Reflects(ApplyOps(EmptyTables, ops), name, LastOpOn(ops, name))
  {
    LastWriterWins(ops, "");
    forall name
      ensures Reflects(ApplyOps(EmptyTables, ops), name, LastOpOn(ops, name))
    {
      LastWriterWins(ops, name);
    }
  }

  /** The edits give operations exactly when each edit on its own does,
      wherever a rejected one appears. */
  lemma {:induction false} EditsAccepted(edits: seq<EnvEdit>)
    ensures EditsOps(edits).Ok? <==> forall i :: 0 <= i < |edits| ==> EditOps(edits[i]).Ok?
    decreases |edits|
  {
    if |edits| > 0 {
      EditsAccepted(edits[1..]);
      assert forall i :: 1 <= i < |edits| ==> edits[1..][i - 1] == edits[i];
      assert forall i :: 0 <= i < |edits| - 1 ==> edits[1..][i] == edits[i + 1];
    }
  }

  /** `--env=A=1 --unset-env=A` leaves A unset and `--unset-env=A
      --env=A=1` leaves A=1. */
  lemma OrderDecides()
    ensures var r := CollectEnv([EnvArg("A=1"), UnsetEnvArg("A")]);
      r.Ok? && "A" !in r.value.env && "A" in r.value.unset
    ensures var r := CollectEnv([UnsetEnvArg("A"), EnvArg("A=1")]);
      r.Ok? && "A" in r.value.env && r.value.env["A"] == "1" && "A" !in r.value.unset
  {
    assert IndexOf("A=1", '=') == 1;
    assert "A=1"[..1] == "A" && "A=1"[2..] == "1";
  }
}
