/** One pass of the read loop of `main`: the typed line is recorded in the
    history, split into words, and the first word selects a command whose
    argument checks are made here. The registry is the list header `head`
    local to `main`; the history is `commands[0..n)`. */
module Dispatcher {
  import opened Registry
  import opened Tokenizer
  import CString
  import opened Spawner
  import Terminator

  /** What the argument checks of `main` decide for the words of a line. */
  datatype Command =
    | StartBackground(program: seq<string>) // `background`
    | ChangeDir                             // `changedir`
    | Exterminate(pid: int)                 // `exterminate <pid>`
    | ExterminateRejected                   // missing or non-numeric pid
    | ListHistory                           // `lastcommands`
    | ClearHistory                          // `lastcommands -c`
    | LastCommandsRejected                  // any other argument
    | StartForeground(program: seq<string>) // `run <program> …`
    | RunRejected                           // `run` with no program
    | QuitShell                             // `quit`
    | WhereAmI                              // `whereami`
    | RepeatCountRejected                   // missing count, or `atoi` below 1
    | RepeatProgramMissing                  // a count but no program
    | RepeatProgram(args: seq<string>)      // `repeat <count> <program> …`
    | KillAll                               // `exterminateall`
    | Invalid                               // anything else

  /** The command names `main` recognises. */
  const CommandNames: set<string> :=
    {"background", "changedir", "exterminate", "lastcommands", "run",
     "quit", "whereami", "repeat", "exterminateall"}

  /** The chain of `strcmp` tests on `args[0]` and the argument checks of
      each branch. `*args[1]` on an empty word would read the terminating
      NUL, which is not a digit. */
  function Decide(args: seq<string>): (c: Command)
    requires args != []
    ensures c == Invalid <==> args[0] !in CommandNames
    ensures c == QuitShell <==> args[0] == "quit"
    ensures c.Exterminate? ==> |args| >= 2 && c.pid >= 0
    ensures c.StartForeground? ==> c.program != [] && c.program == args[1..]
    ensures c.RepeatProgram? ==> |c.args| >= 3 && CString.Atoi(c.args[1]) >= 1 && c.args == args
  {
    var name := args[0];
    if name == "background" then StartBackground(args[1..])
    else if name == "changedir" then ChangeDir
    else if name == "exterminate" then
      if |args| < 2 || args[1] == [] || !CString.IsDigit(args[1][0]) then ExterminateRejected
      else
        assert CString.DigitRun(args[1]) > 0;
        Exterminate(CString.Atoi(args[1]))
    else if name == "lastcommands" then
      if |args| < 2 then ListHistory
      else if args[1] == "-c" then ClearHistory
      else LastCommandsRejected
    else if name == "run" then
      if |args| < 2 then RunRejected else StartForeground(args[1..])
    else if name == "quit" then QuitShell
    else if name == "whereami" then WhereAmI
    else if name == "repeat" then
      if |args| < 2 || CString.Atoi(args[1]) < 1 then RepeatCountRejected
      else if |args| < 3 then RepeatProgramMissing
      else RepeatProgram(args)
    else if name == "exterminateall" then KillAll
    else Invalid
  }

  /** Every command name is a single word, so it can be typed. */
  lemma CommandNamesAreWords()
    ensures forall name :: name in CommandNames ==> name != [] && ' ' !in name
  {
    forall name | name in CommandNames
      ensures name != [] && ' ' !in name
    {
      assert forall i :: 0 <= i < |name| ==> name[i] != ' ';
    }
  }

  /** Words made of digits contain no space. */
  lemma DecimalIsWord(n: nat)
    ensures CString.Decimal(n) != [] && ' ' !in CString.Decimal(n)
  {
    var d := CString.Decimal(n);
    assert forall i :: 0 <= i < |d| ==> d[i] != ' ';
  }

  /** Typing `exterminate` and a pid written in base 10 selects exactly that
      pid. */
  lemma DecideExterminateTyped(pid: nat)
    ensures Decide(Words(Join(["exterminate", CString.Decimal(pid)]))) == Exterminate(pid)
  {
    DecimalIsWord(pid);
    var ws := ["exterminate", CString.Decimal(pid)];
    assert forall w :: w in ws ==> w != [] && ' ' !in w;
    WordsOfJoin(ws);
    CString.AtoiOfDecimal(pid);
    assert CString.IsDigit(CString.Decimal(pid)[0]);
  }

  /** Typing `repeat`, a count and a program: a count below 1 or a missing
      program is turned away, anything else reaches `repeat` with the words
      as typed. */
  lemma DecideRepeatTyped(count: nat, program: seq<string>)
    requires forall w :: w in program ==> w != [] && ' ' !in w
    ensures var c := Decide(Words(Join(["repeat", CString.Decimal(count)] + program)));
            && (count == 0 ==> c == RepeatCountRejected)
            && (count > 0 && program == [] ==> c == RepeatProgramMissing)
            && (count > 0 && program != [] ==> c == RepeatProgram(["repeat", CString.Decimal(count)] + program))
  {
    DecimalIsWord(count);
    var ws := ["repeat", CString.Decimal(count)] + program;
    assert forall w :: w in ws ==> w != [] && ' ' !in w by {
      forall w | w in ws ensures w != [] && ' ' !in w {
        if w !in program {
          assert w == "repeat" || w == CString.Decimal(count);
        }
      }
    }
    WordsOfJoin(ws);
    CString.AtoiOfDecimal(count);
    assert ws[1] == CString.Decimal(count) && |ws| == 2 + |program|;
  }

  /** What a pass of the loop did, as far as the model observes it. */
  datatype Effect =
    | Nothing                          // a message, or a command outside the model
    | Listed(lines: seq<string>)       // `lastcommands`: the history, oldest first
    | Spawned(run: RunOutcome)         // `background` or `run`
    | Repeated(outcome: RepeatOutcome) // `repeat`
    | Killed(status: int)              // `exterminate`: what `exterm` returned
    | KilledAll(status: int, passes: nat) // `exterminateall`: return value, `n`
    | Exit(code: int)                  // `return 0` or `quit`: the shell ends

  /** The answers the operating system must give for the command to come
      back: a fork result for each spawn, a wait that eventually settles for
      a foreground child, and a working kill for every registered pid before
      `exterminateall` (whose loop never ends otherwise). */
  ghost predicate OraclesSuffice(c: Command, contents: seq<int>, forkPids: seq<int>,
                                 waits: seq<WaitCall>, killed: int -> bool)
  {
    && (c.StartBackground? || c.StartForeground? ==> forkPids != [])
    && (c.StartForeground? && forkPids != [] && forkPids[0] > 0 ==> Settles(waits))
    && (c.RepeatProgram? && |c.args| >= 2 ==> CString.Atoi(c.args[1]) <= |forkPids|)
    && (c == KillAll ==> forall p :: p in contents ==> killed(p))
  }

  /** Commands whose branch prints a message or runs outside the model,
      and `lastcommands -c`, which only clears the history. */
  predicate Inert(c: Command)
  {
    || c.ChangeDir? || c.WhereAmI? || c.Invalid? || c.ExterminateRejected?
    || c.LastCommandsRejected? || c.RunRejected? || c.RepeatCountRejected?
    || c.RepeatProgramMissing? || c.ClearHistory?
  }

  /** Commands whose branch leaves the registry alone: the inert ones,
      `lastcommands`, which only prints the history, and `quit`. */
  predicate KeepsRegistry(c: Command)
  {
    Inert(c) || c.ListHistory? || c.QuitShell?
  }

  /** How the branch for `c` leaves the history, the registered pids and the
      reported effect, given the history `recorded` (which already holds
      the line), the pids `pids` before it ran, and the answers of `fork`,
      `waitpid` and `kill`. A spawn reports the branch `run` took: a failed
      fork (the shell exits), the child side, a registered background
      child, or a foreground child with the classification of its wait. */
  ghost predicate Executed(c: Command, recorded: seq<string>, pids: seq<int>, forkPids: seq<int>,
                           waits: seq<WaitCall>, killed: int -> bool,
                           history: seq<string>, pids': seq<int>, effect: Effect)
  {
    && history == (if c.ClearHistory? then [] else recorded)
    && (c.ListHistory? ==> effect == Listed(recorded) && pids' == pids)
    && (c.QuitShell? ==> effect == Exit(0) && pids' == pids)
    && (c.Exterminate? ==>
          && effect == Killed(if killed(c.pid) then 0 else 1)
          && pids' == if killed(c.pid) then RemoveFirst(pids, c.pid) else pids)
    && (c.StartBackground? || c.StartForeground? ==>
          && forkPids != []
          && (forkPids[0] == -1 ==> effect == Spawned(ForkFailed))
          && (forkPids[0] != -1 && forkPids[0] <= 0 ==> effect == Spawned(InChild(c.program)))
          && (forkPids[0] > 0 && c.StartBackground? ==>
                effect == Spawned(Background(forkPids[0])) && pids' == pids + [forkPids[0]])
          && (forkPids[0] > 0 && c.StartForeground? ==>
                && Settles(waits)
                && var last := waits[SettledAt(waits)];
                   effect == Spawned(Foreground(forkPids[0], Classify(last.ret, last.status))))
          && (!(forkPids[0] > 0 && c.StartBackground?) ==> pids' == pids))
    && (c.RepeatProgram? ==>
          && |c.args| >= 2 && 0 <= CString.Atoi(c.args[1]) <= |forkPids|
          && var count := CString.Atoi(c.args[1]);
             var k := Returning(forkPids, count);
             && pids' == pids + forkPids[..k]
             && effect == Repeated(if k == count then Finished
                                   else Halted(if forkPids[k] == -1 then ForkFailed else InChild(c.args[2..]))))
    && (c.KillAll? ==> effect == KilledAll(if pids == [] then 1 else 0, |pids|) && pids' == [])
    && (Inert(c) ==> effect == Nothing && pids' == pids)
  }

  /** The registry changes only through `background`, `repeat`,
      `exterminate` and `exterminateall`; every other branch, `run`
      included, leaves the registered pids as they were. */
  lemma RegistryChangesOnlyBySpawnOrKill(c: Command, recorded: seq<string>, pids: seq<int>,
                                         forkPids: seq<int>, waits: seq<WaitCall>,
                                         killed: int -> bool, history: seq<string>,
                                         pids': seq<int>, effect: Effect)
    requires Executed(c, recorded, pids, forkPids, waits, killed, history, pids', effect)
    ensures pids' != pids ==> c.StartBackground? || c.RepeatProgram? || c.Exterminate? || c.KillAll?
    ensures KeepsRegistry(c) || c.StartForeground? ==> pids' == pids
  {
    if c.StartForeground? {
      assert forkPids != [] && !(forkPids[0] > 0 && c.StartBackground?);
    }
  }

  /** A `run` line, a fork that returns 5 and a wait that finds the child
      exited with status 3: the pass reports exactly that, and registers
      nothing. */
  lemma RunLineReportsExit(program: seq<string>, recorded: seq<string>, pids: seq<int>,
                           killed: int -> bool, history: seq<string>, pids': seq<int>,
                           effect: Effect)
    requires program != [] && forall w :: w in program ==> w != [] && ' ' !in w
    requires Executed(Decide(Words(Join(["run"] + program))), recorded, pids, [5],
                      [WaitCall(5, false, WaitStatus(true, 3, false, 0, false, 0))],
                      killed, history, pids', effect)
    ensures effect == Spawned(Foreground(5, Exited(3))) && pids' == pids && history == recorded
  {
    var ws := ["run"] + program;
    assert forall w :: w in ws ==> w != [] && ' ' !in w;
    WordsOfJoin(ws);
    assert Decide(ws) == StartForeground(program);
    assert SettledAt([WaitCall(5, false, WaitStatus(true, 3, false, 0, false, 0))]) == 0;
  }

  /** A `background` line with a fork that fails: the pass reports the
      failure, after which `main` exits, and registers nothing. */
  lemma BackgroundLineForkFails(program: seq<string>, recorded: seq<string>, pids: seq<int>,
                                waits: seq<WaitCall>, killed: int -> bool,
                                history: seq<string>, pids': seq<int>, effect: Effect)
    requires forall w :: w in program ==> w != [] && ' ' !in w
    requires Executed(Decide(Words(Join(["background"] + program))), recorded, pids, [-1], waits,
                      killed, history, pids', effect)
    ensures effect == Spawned(ForkFailed) && pids' == pids
  {
    var ws := ["background"] + program;
    CommandNamesAreWords();
    assert "background" in CommandNames;
    assert forall w :: w in ws ==> w != [] && ' ' !in w;
    WordsOfJoin(ws);
    assert Decide(ws) == StartBackground(program);
  }

  /** The state `main` keeps across passes: the list header and the history. */
  class Shell {
    const reg: ProcessList
    var history: seq<string>

    ghost predicate Valid()
      reads this, reg, reg.nodes
    {
      reg.Valid()
    }

    /** `head = NULL` and `n = 0`. */
    constructor ()
      ensures Valid() && fresh(reg) && reg.Contents == [] && history == []
    {
      reg := new ProcessList();
      history := [];
    }

    /** One pass of the `do … while` loop on the line `scanf` read (it skips
        leading white space, so the line starts with a word). `quit` as the
        very first line ends the shell unrecorded; every other line is
        appended to the history before its command runs. */
    method Step(input: string, forkPids: seq<int>, waits: seq<WaitCall>, killed: int -> bool)
      returns (effect: Effect)
      requires Valid()
      requires input != [] && input[0] != ' '
      requires OraclesSuffice(Decide(Words(input)), reg.Contents, forkPids, waits, killed)
      modifies this, reg, reg.nodes
      ensures Valid()
      ensures input == "quit" && old(history) == [] ==>
                effect == Exit(0) && history == [] && unchanged(reg) && unchanged(old(reg.nodes))
      ensures !(input == "quit" && old(history) == []) ==>
                Executed(Decide(Words(input)), old(history) + [input], old(reg.Contents), forkPids, waits,
                         killed, history, reg.Contents, effect)
      ensures !(input == "quit" && old(history) == []) && KeepsRegistry(Decide(Words(input))) ==>
                unchanged(reg) && unchanged(old(reg.nodes))
    {
      if input == "quit" && history == [] {
        return Exit(0);
      }
      history := history + [input];
      var tokens, count := Tokenize(input);
      var args := seq(count, j requires 0 <= j < count reads tokens => if tokens[j].Token? then tokens[j].text else []);
      assert args == Words(input);
      var c := Decide(args);
      effect := Execute(c, forkPids, waits, killed);
    }

    /** The branches that start programs: `background`, `run` and `repeat`. */
    method Spawn(c: Command, forkPids: seq<int>, waits: seq<WaitCall>) returns (effect: Effect)
      requires Valid()
      requires c.StartBackground? || c.StartForeground? || c.RepeatProgram?
      requires OraclesSuffice(c, reg.Contents, forkPids, waits, _ => true)
      requires c.RepeatProgram? ==> |c.args| >= 3 && CString.Atoi(c.args[1]) >= 1
      modifies reg, reg.nodes
      ensures Valid()
      ensures Executed(c, history, old(reg.Contents), forkPids, waits, _ => true, history, reg.Contents, effect)
    {
      if c.RepeatProgram? {
        var r := Repeat(reg, c.args, forkPids);
        effect := Repeated(r);
      } else {
        effect := SpawnOne(c, forkPids, waits);
      }
    }

    /** `background` and `run`: one call of `run`, in the background or not. */
    method SpawnOne(c: Command, forkPids: seq<int>, waits: seq<WaitCall>) returns (effect: Effect)
      requires Valid()
      requires c.StartBackground? || c.StartForeground?
      requires OraclesSuffice(c, reg.Contents, forkPids, waits, _ => true)
      modifies reg, reg.nodes
      ensures Valid()
      ensures Executed(c, history, old(reg.Contents), forkPids, waits, _ => true, history, reg.Contents, effect)
    {
      // `args == NULL` is never true under `background`, so the program is always run
      var r := Run(reg, c.program, c.StartBackground?, forkPids[0], waits);
      effect := Spawned(r);
    }

    /** The branches that kill: `exterminate` and `exterminateall`. */
    method Kill(c: Command, killed: int -> bool) returns (effect: Effect)
      requires Valid()
      requires c.Exterminate? || c.KillAll?
      requires OraclesSuffice(c, reg.Contents, [], [], killed)
      modifies reg, reg.nodes
      ensures Valid()
      ensures Executed(c, history, old(reg.Contents), [], [], killed, history, reg.Contents, effect)
    {
      if c.Exterminate? {
        var r := Terminator.Exterm(reg, c.pid, killed);
        effect := Killed(r);
      } else {
        var r, n := Terminator.ExterminateAll(reg, killed);
        effect := KilledAll(r, n);
      }
    }

    /** The branch of `main` for command `c`, run after the line has been
        recorded. */
    method Execute(c: Command, forkPids: seq<int>, waits: seq<WaitCall>, killed: int -> bool)
      returns (effect: Effect)
      requires Valid()
      requires OraclesSuffice(c, reg.Contents, forkPids, waits, killed)
      requires c.RepeatProgram? ==> |c.args| >= 3 && CString.Atoi(c.args[1]) >= 1
      modifies this, reg, reg.nodes
      ensures Valid()
      ensures Executed(c, old(history), old(reg.Contents), forkPids, waits, killed, history, reg.Contents, effect)
      ensures KeepsRegistry(c) ==> unchanged(reg) && unchanged(old(reg.nodes))
    {
      if c.StartBackground? || c.StartForeground? || c.RepeatProgram? {
        effect := Spawn(c, forkPids, waits);
      } else if c.Exterminate? || c.KillAll? {
        effect := Kill(c, killed);
      } else if c.ListHistory? {
        effect := Listed(history);
      } else if c.ClearHistory? {
        history := [];
        effect := Nothing;
      } else if c.QuitShell? {
        effect := Exit(0);
      } else {
        effect := Nothing;
      }
    }
  }
}
