/** parse_command_string: the command line of a new process split at
    spaces into an argv array, as process.c uses it both to find the program
    name and to build the user stack. */
module CommandLine {
  import opened Common
  import opened Tokens

  /** MAX_ARGS_COUNT: the slots of the argv array setup_stack declares. */
  const MaxArgsCount: nat := 100

  /** The arguments of a command line: the tokens strtok_r yields for it. */
  function Args(command: string): seq<string>
  {
    TokensFrom(command, 0, ' ')
  }

  /** The arguments are the non-empty space-separated pieces of the command
      line, in order; none is empty and none contains a space. */
  lemma ArgsAreSplit(command: string)
    ensures Args(command) == Split(command, ' ')
    ensures forall t :: t in Args(command) ==> t != [] && ' ' !in t
  {
    TokensAreSplit(command, 0, ' ');
    TokensWellFormed(command, 0, ' ');
    assert command[0..] == command;
  }

  /** Slots 0 to n - 1 hold the first n tokens. */
  ghost predicate Stored(slots: seq<Option<string>>, ts: seq<string>, n: nat)
  {
    n <= |slots| && n <= |ts| && forall k :: 0 <= k < n ==> slots[k] == Some(ts[k])
  }

  lemma StoredStep(before: seq<Option<string>>, after: seq<Option<string>>, ts: seq<string>, n: nat)
    requires Stored(before, ts, n) && n < |before| && n < |ts|
    requires before[n] == Some(ts[n])
    requires |after| == |before| && forall k :: 0 <= k < |before| && k != n + 1 ==> after[k] == before[k]
    ensures Stored(after, ts, n + 1)
  {
  }

  /** The loop of parse_command_string when every argument is wanted:
      argv[0], argv[1], ... receive the arguments in order and the slot
      after the last receives NULL. */
  method FillArgs(command: string, argv: array<Option<string>>) returns (argc: nat)
    requires argv.Length > |TokensFrom(command, 0, ' ')|
    modifies argv
    ensures argc == |TokensFrom(command, 0, ' ')|
    ensures forall k :: 0 <= k < argc ==> argv[k] == Some(TokensFrom(command, 0, ' ')[k])
    ensures argv[argc] == None
  {
    ghost var ts := TokensFrom(command, 0, ' ');
    argc := 0;
    var tok: Option<string>, save: nat := NextToken(command, 0, ' ', ts, 0);
    argv[argc] := tok;
    while tok.Some?
      invariant argc <= |ts| && save <= |command|
      invariant tok.Some? ==> argc < |ts| && tok.value == ts[argc] && TokensFrom(command, save, ' ') == ts[argc + 1..]
      invariant tok.None? ==> argc == |ts|
      invariant argv[argc] == tok
      invariant Stored(argv[..], ts, argc)
      decreases |ts| - argc
    {
      ghost var before := argv[..];
      argc := argc + 1;
      tok, save := NextToken(command, save, ' ', ts, argc);
      argv[argc] := tok;
      StoredStep(before, argv[..], ts, argc - 1);
    }
  }

  /** parse_command_string. Without set_first_only, argv receives every
      argument in order followed by NULL and the result is the argument
      count. With set_first_only the loop stops after the first token: only
      argv[0] is set, to the program name or NULL, and the result is at most
      1. (The code as written also stores the second token in argv[1] before
      it stops: see Findings.FirstOnlySlotsAsWritten.) */
  method ParseCommandString(command: string, argv: array<Option<string>>, setFirstOnly: bool)
    returns (argc: nat)
    requires argv.Length > if setFirstOnly then 0 else |Args(command)|
    modifies argv
    ensures !setFirstOnly ==> argc == |Args(command)| && argv[argc] == None
    ensures !setFirstOnly ==> forall k :: 0 <= k < argc ==> argv[k] == Some(Args(command)[k])
    ensures setFirstOnly ==> argc <= 1 && (argc == 1 <==> Args(command) != [])
    ensures setFirstOnly ==> argv[0] == if argc == 0 then None else Some(Args(command)[0])
    ensures setFirstOnly ==> forall k :: 1 <= k < argv.Length ==> argv[k] == old(argv[k])
  {
    if !setFirstOnly {
      argc := FillArgs(command, argv);
    } else {
      ghost var ts := TokensFrom(command, 0, ' ');
      var tok, _ := NextToken(command, 0, ' ', ts, 0);
      argv[0] := tok;
      argc := if tok.Some? then 1 else 0;
    }
  }
}
