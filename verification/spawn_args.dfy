/**
  How flatpak-spawn separates its own options from the command it runs:
  the leading tokens that start with `-` are options, and the first token
  that does not begins the child's argument vector, which is copied
  verbatim from there on (so `flatpak-spawn --host ls -l` runs `ls -l`).
 */
module SpawnArgs {

  /** A token that the splitter treats as one of flatpak-spawn's own
      options. The empty token counts as a command word: its first byte is
      the terminating NUL, not `-`. */
  predicate IsOptionToken(token: string) {
    |token| > 0 && token[0] == '-'
  }

  /** Finds where the command begins in `argv` (whose element 0 is the
      program name) and returns that index together with the command.
      The index is also the number of tokens handed to the option parser. */
  method SplitCommand(argv: seq<string>) returns (optionCount: nat, command: seq<string>)
    ensures optionCount >= 1
    ensures |argv| == 0 ==> command == []
    ensures |argv| > 0 ==> optionCount <= |argv| && command == argv[optionCount..]
    ensures forall k :: 1 <= k < optionCount && k < |argv| ==> IsOptionToken(argv[k])
    ensures optionCount < |argv| ==> !IsOptionToken(argv[optionCount])
    ensures |argv| > 0 ==> argv[1..optionCount] + command == argv[1..]
  {
    var i := 1;
    while i < |argv| && IsOptionToken(argv[i])
      invariant 1 <= i
      invariant |argv| > 0 ==> i <= |argv|
      invariant forall k :: 1 <= k < i && k < |argv| ==> IsOptionToken(argv[k])
      decreases |argv| - i
    {
      i := i + 1;
    }
    optionCount := i;
    command := [];
    while i < |argv|
      invariant optionCount <= i
      invariant |argv| > 0 ==> i <= |argv|
      invariant |argv| > 0 ==> command == argv[optionCount..i]
      invariant |argv| == 0 ==> command == []
      decreases |argv| - i
    {
      command := command + [argv[i]];
      i := i + 1;
    }
    if |argv| > 0 {
      assert argv[1..] == argv[1..optionCount] + argv[optionCount..];
    }
  }
}
