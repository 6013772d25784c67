/**
  `--unset-env` for services that cannot unset variables themselves (the
  host service, and the portal before version 5): the command is run
  through `env -u NAME …`. env(1) treats any leading operand containing `=`
  as an assignment, so a command whose name contains `=` is first wrapped
  in `/bin/sh -euc 'exec "$@"' sh`, which runs its arguments unchanged.
 */
module UnsetRewrite {
  import opened Basics
  import opened SpawnArgs

  const ENV_PATH: string := "/usr/bin/env"
  const SHIM: seq<string> := ["/bin/sh", "-euc", "exec \"$@\"", "sh"]

  /** The `-u NAME` pairs as the loop leaves them: each name is inserted at
      the front, so the pairs come out in reverse iteration order. */
  function UnsetPairs(names: seq<string>): (r: seq<string>)
    ensures |r| == 2 * |names|
    decreases |names|
  {
    if |names| == 0 then []
    else ["-u", names[|names| - 1]] + UnsetPairs(names[..|names| - 1])
  }

  /** The argv sent instead of `argv` when `names` (in hash-table iteration
      order) must be unset by the command itself. */
  function RewriteArgv(argv: seq<string>, names: seq<string>): (r: seq<string>)
    requires |argv| > 0
    ensures |r| == 1 + 2 * |names| + (if Contains(argv[0], '=') then |SHIM| else 0) + |argv|
    ensures r[0] == ENV_PATH
    ensures r[|r| - |argv|..] == argv
    ensures Contains(argv[0], '=') ==> r[1 + 2 * |names|..1 + 2 * |names| + 4] == SHIM
  {
    [ENV_PATH] + UnsetPairs(names) + (if Contains(argv[0], '=') then SHIM else []) + argv
  }

  /** How env(1) reads its arguments (after its own name): `-u NAME`
      options first, then `NAME=VALUE` assignments, then the command. */
  datatype EnvRun = EnvRun(unset: set<string>, assignments: seq<string>, command: seq<string>)

  function EnvArgs(args: seq<string>): EnvRun
    decreases |args|
  {
    if |args| >= 2 && args[0] == "-u" then
      var rest := EnvArgs(args[2..]);
      rest.(unset := rest.unset + {args[1]})
    else
      var n := AssignmentCount(args);
      EnvRun({}, args[..n], args[n..])
  }

  /** The number of leading operands env(1) takes as assignments. */
  function AssignmentCount(args: seq<string>): (n: nat)
    ensures n <= |args|
    ensures forall k :: 0 <= k < n ==> Contains(args[k], '=')
    ensures n < |args| ==> !Contains(args[n], '=')
  {
    if |args| > 0 && Contains(args[0], '=') then 1 + AssignmentCount(args[1..]) else 0
  }

  /** The program that finally runs: the shim execs its arguments. */
  function Effective(command: seq<string>): seq<string>
    decreases |command|
  {
    if |command| >= 4 && command[..4] == SHIM then Effective(command[4..]) else command
  }

  /** The whole `env` invocation: what is unset, what is assigned, what runs. */
  function RunThroughEnv(argv: seq<string>): EnvRun
    requires |argv| > 0 && argv[0] == ENV_PATH
  {
    var r := EnvArgs(argv[1..]);
    r.(command := Effective(r.command))
  }

  function NameSet(names: seq<string>): set<string> {
    set n | n in names
  }

  /** The pairs are read back as exactly the names to unset. */
  lemma {:induction false} PairsReadBack(names: seq<string>, rest: seq<string>)
    requires |rest| > 0 ==> rest[0] != "-u"
    ensures EnvArgs(UnsetPairs(names) + rest) == EnvArgs(rest).(unset := EnvArgs(rest).unset + NameSet(names))
    decreases |names|
  {
    if |names| > 0 {
      var init := names[..|names| - 1];
      var last := names[|names| - 1];
      var args := UnsetPairs(names) + rest;
      PairsReadBack(init, rest);
      assert UnsetPairs(names) == ["-u", last] + UnsetPairs(init);
      PairThenRest("-u", last, UnsetPairs(init), rest);
      var inner := EnvArgs(UnsetPairs(init) + rest);
      assert EnvArgs(args) == inner.(unset := inner.unset + {last});
      NameSetSnoc(names);
    } else {
      assert (NameSet(names)) == {};
      assert UnsetPairs(names) + rest == rest;
    }
  }

  /** The names of a non-empty list: those of all but the last, and the
      last. */
  lemma NameSetSnoc(names: seq<string>)
    requires |names| > 0
    ensures NameSet(names) == NameSet(names[..|names| - 1]) + {names[|names| - 1]}
  {
    assert names == names[..|names| - 1] + [names[|names| - 1]];
  }

  /** A two-word option followed by more words. */
  lemma PairThenRest<T>(a: T, b: T, xs: seq<T>, rest: seq<T>)
    ensures var s := [a, b] + xs + rest;
      |s| >= 2 && s[0] == a && s[1] == b && s[2..] == xs + rest
  {
  }

  /** An argument list starting with a word without `=` has no
      assignments. */
  lemma NoAssignments(args: seq<string>)
    requires |args| > 0 && !Contains(args[0], '=') && args[0] != "-u"
    ensures EnvArgs(args) == EnvRun({}, [], args)
  {
  }

  /** The rewrite does what `--unset-env` asks: env unsets exactly the
      given names, assigns nothing, and the original command runs with its
      arguments unchanged. */
  lemma RewriteRunsCommand(argv: seq<string>, names: seq<string>)
    requires |argv| > 0 && !IsOptionToken(argv[0])
    ensures RunThroughEnv(RewriteArgv(argv, names)) == EnvRun(NameSet(names), [], Effective(argv))
  {
    RewriteTail(argv, names);
    if Contains(argv[0], '=') {
      ShimReadsAsCommand(argv);
      ReadsAs(RewriteArgv(argv, names), names, SHIM + argv, argv);
    } else {
      assert argv[0] != "-u" by {
        assert "-u"[0] == '-';
      }
      NoAssignments(argv);
      ReadsAs(RewriteArgv(argv, names), names, argv, argv);
    }
  }

  /** An env invocation whose pairs are followed by a plain command. */
  lemma ReadsAs(r: seq<string>, names: seq<string>, rest: seq<string>, argv: seq<string>)
    requires |r| > 0 && r[0] == ENV_PATH && r[1..] == UnsetPairs(names) + rest
    requires |rest| > 0 && rest[0] != "-u" && EnvArgs(rest) == EnvRun({}, [], rest)
    requires Effective(rest) == Effective(argv)
    ensures RunThroughEnv(r) == EnvRun(NameSet(names), [], Effective(argv))
  {
    PairsReadBack(names, rest);
    var e := EnvArgs(r[1..]);
    assert e == EnvRun({} + NameSet(names), [], rest);
    UnionEmpty(NameSet(names));
    RunThroughEnvParts(r);
  }

  lemma RunThroughEnvParts(r: seq<string>)
    requires |r| > 0 && r[0] == ENV_PATH
    ensures var e := EnvArgs(r[1..]);
      RunThroughEnv(r) == EnvRun(e.unset, e.assignments, Effective(e.command))
  {
  }

  lemma UnionEmpty(s: set<string>)
    ensures {} + s == s
  {
  }

  /** After env's own path come the pairs, then the (possibly wrapped)
      command. */
  lemma RewriteTail(argv: seq<string>, names: seq<string>)
    requires |argv| > 0
    ensures RewriteArgv(argv, names)[1..] ==
      UnsetPairs(names) + (if Contains(argv[0], '=') then SHIM + argv else argv)
  {
    var shim := if Contains(argv[0], '=') then SHIM else [];
    DropFirst(ENV_PATH, UnsetPairs(names), shim, argv);
    assert [] + argv == argv;
  }

  /** Dropping the head of a list built by concatenation. */
  lemma DropFirst<T>(h: T, a: seq<T>, b: seq<T>, c: seq<T>)
    ensures ([h] + a + b + c)[1..] == a + (b + c)
  {
  }

  /** With the shim in front, env(1) sees no option and no assignment, and
      running the shim runs the command. */
  lemma ShimReadsAsCommand(argv: seq<string>)
    ensures var rest := SHIM + argv;
      rest[0] != "-u" && EnvArgs(rest) == EnvRun({}, [], rest) && Effective(rest) == Effective(argv)
  {
    var rest := SHIM + argv;
    ShimHead();
    assert rest[0] == SHIM[0];
    NoAssignments(rest);
    EffectiveShim(argv);
  }

  /** The shim's first word is neither an option nor an assignment. */
  lemma ShimHead()
    ensures !Contains(SHIM[0], '=') && SHIM[0] != "-u"
  {
    var w := SHIM[0];
    assert w == "/bin/sh";
    assert forall k :: 0 <= k < |w| ==> w[k] != '=';
    assert w[0] != "-u"[0];
  }

  /** The shim runs what follows it. */
  lemma EffectiveShim(argv: seq<string>)
    ensures Effective(SHIM + argv) == Effective(argv)
  {
    var c := SHIM + argv;
    assert c[..4] == SHIM;
    assert c[4..] == argv;
  }

  /** Without the shim, a command named `some=command` would be taken by
      env(1) as a variable assignment and not run at all. */
  lemma ShimNeeded(argv: seq<string>, names: seq<string>)
    requires |argv| > 0 && Contains(argv[0], '=')
    ensures var naive := [ENV_PATH] + UnsetPairs(names) + argv;
      RunThroughEnv(naive).assignments != [] && RunThroughEnv(naive).command != argv
  {
    var naive := [ENV_PATH] + UnsetPairs(names) + argv;
    assert naive[1..] == UnsetPairs(names) + argv;
    assert argv[0] != "-u" by {
      assert !Contains("-u", '=');
    }
    PairsReadBack(names, argv);
    var n := AssignmentCount(argv);
    assert n >= 1;
    EffectiveShorter(argv[n..]);
  }

  lemma {:induction false} EffectiveShorter(command: seq<string>)
    ensures |Effective(command)| <= |command|
    decreases |command|
  {
    if |command| >= 4 && command[..4] == SHIM {
      EffectiveShorter(command[4..]);
    }
  }
}
