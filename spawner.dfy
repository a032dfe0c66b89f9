/** Starting programs: `run` forks, registers a background child or waits
    for a foreground one, and `repeat` starts the same program several times
    in the background. The operating system is replaced by its answers: the
    value `fork` returns and the results of successive `waitpid` calls. */
module Spawner {
  import opened Registry
  import CString

  /** What the `W*` macros read off a wait status. A status the kernel
      produces sets at most one of `exited`, `signaled` and `stopped`. */
  datatype WaitStatus = WaitStatus(
    exited: bool, exitCode: int,
    signaled: bool, termSignal: int,
    stopped: bool, stopSignal: int)

  /** One call of `waitpid(pid, &status, 0)`: what it returned, whether
      `errno` was `EINTR`, and the status it stored. */
  datatype WaitCall = WaitCall(ret: int, eintr: bool, status: WaitStatus)

  /** Exactly one of the three kinds is set, as in any status the kernel
      reports for a child that changed state. */
  predicate OneKind(s: WaitStatus)
  {
    || (s.exited && !s.signaled && !s.stopped)
    || (!s.exited && s.signaled && !s.stopped)
    || (!s.exited && !s.signaled && s.stopped)
  }

  /** The wait loop calls `waitpid` again only after an interrupted call. */
  predicate Retries(c: WaitCall)
  {
    c.ret == -1 && c.eintr
  }

  /** Some call in `waits` ends the wait loop. */
  predicate Settles(waits: seq<WaitCall>)
  {
    exists i :: 0 <= i < |waits| && !Retries(waits[i])
  }

  /** The position of the `waitpid` call that ends the wait loop: the first
      one that was not interrupted. */
  function SettledAt(waits: seq<WaitCall>): (k: nat)
    requires Settles(waits)
    ensures k < |waits| && !Retries(waits[k])
    ensures forall j :: 0 <= j < k ==> Retries(waits[j])
  {
    if !Retries(waits[0]) then 0
    else
      assert Settles(waits[1..]) by {
        var i :| 0 <= i < |waits| && !Retries(waits[i]);
        assert waits[1..][i - 1] == waits[i];
      }
      1 + SettledAt(waits[1..])
  }

  /** What `run` reports about a foreground child once the wait is over. */
  datatype Report =
    | WaitFailed         // `waitpid` failed for another reason than EINTR
    | Exited(code: int)  // WIFEXITED, with WEXITSTATUS
    | Signaled(sig: int) // WIFSIGNALED, with WTERMSIG
    | Stopped            // WIFSTOPPED
    | Silent             // none of the three: nothing is printed

  /** The classification after the wait loop, tested in `run`'s order:
      a failed wait, then exited, then signaled, then stopped. */
  function Classify(got: int, status: WaitStatus): (r: Report)
    ensures r == WaitFailed <==> got == -1
    ensures r.Exited? ==> status.exited && r.code == status.exitCode
    ensures r.Signaled? ==> status.signaled && !status.exited && r.sig == status.termSignal
    ensures r.Stopped? ==> status.stopped && !status.exited && !status.signaled
    ensures r == Silent <==> got != -1 && !status.exited && !status.signaled && !status.stopped
  {
    if got == -1 then WaitFailed
    else if status.exited then Exited(status.exitCode)
    else if status.signaled then Signaled(status.termSignal)
    else if status.stopped then Stopped
    else Silent
  }

  /** For a status that sets exactly one kind, the report names that kind
      whatever the order of the tests: a program that exits with 3 is
      reported as `Exited(3)`, one killed by signal 9 as `Signaled(9)`. */
  lemma ClassifyKernelStatus(got: int, status: WaitStatus)
    requires got != -1
    requires OneKind(status)
    ensures status.exited ==> Classify(got, status) == Exited(status.exitCode)
    ensures status.signaled ==> Classify(got, status) == Signaled(status.termSignal)
    ensures status.stopped ==> Classify(got, status) == Stopped
  {
  }

  /** The wait loop of `run`: `waitpid` is called again only while it
      returns -1 with `errno == EINTR`; `calls` is how many calls were made,
      and the last one gives `got` and `status`. */
  method WaitForChild(waits: seq<WaitCall>) returns (got: int, status: WaitStatus, calls: nat)
    requires Settles(waits)
    ensures 0 < calls <= |waits|
    ensures forall j :: 0 <= j < calls - 1 ==> Retries(waits[j])
    ensures !Retries(waits[calls - 1])
    ensures got == waits[calls - 1].ret && status == waits[calls - 1].status
  {
    calls := 0;
    while true
      invariant calls < |waits|
      invariant forall j :: 0 <= j < calls ==> Retries(waits[j])
      decreases |waits| - calls
    {
      var c := waits[calls];
      got, status := c.ret, c.status;
      calls := calls + 1;
      if got == 0 {
        break;  // the loop condition `(got_pid = waitpid(...))` is false
      }
      if got != -1 || !c.eintr {
        break;
      }
    }
  }

  /** How `run` ends. */
  datatype RunOutcome =
    | ForkFailed                         // `fork` returned -1: exit(EXIT_FAILURE)
    | InChild(program: seq<string>)      // this process is the child: execv(program[0], program), else _exit(EXIT_FAILURE)
    | Background(pid: int)               // registered, 0 returned without waiting
    | Foreground(pid: int, report: Report) // waited for, 0 returned

  /** `run`, with `forkPid` the value `fork` returned and `waits` the
      answers of successive `waitpid` calls. Only a background spawn in the
      parent touches the registry, and it appends exactly the child's pid. */
  method Run(reg: ProcessList, program: seq<string>, background: bool, forkPid: int, waits: seq<WaitCall>)
    returns (outcome: RunOutcome)
    requires reg.Valid()
    requires forkPid > 0 && !background ==> Settles(waits)
    modifies reg, reg.nodes
    ensures reg.Valid()
    ensures forkPid == -1 ==> outcome == ForkFailed
    ensures forkPid != -1 && forkPid <= 0 ==> outcome == InChild(program)
    ensures forkPid > 0 && background ==>
              && outcome == Background(forkPid)
              && reg.Contents == old(reg.Contents) + [forkPid]
              && |reg.nodes| == |old(reg.nodes)| + 1 && reg.nodes[..|old(reg.nodes)|] == old(reg.nodes)
              && fresh(reg.nodes[|old(reg.nodes)|])
    ensures forkPid > 0 && !background ==>
              var last := waits[SettledAt(waits)];
              outcome == Foreground(forkPid, Classify(last.ret, last.status))
    ensures !(forkPid > 0 && background) ==> unchanged(reg) && unchanged(old(reg.nodes))
  {
    var pid := forkPid;
    if pid == -1 {
      return ForkFailed;
    } else if pid > 0 {
      if background {
        reg.Append(pid);
        return Background(pid);
      }
      var got, status, calls := WaitForChild(waits);
      return Foreground(pid, Classify(got, status));
    } else {
      return InChild(program);
    }
  }

  /** The number of `run` calls of `repeat` that come back to it, out of
      `count`: they stop at the first fork result that is not a child pid
      (a failed fork ends the shell; 0 means this process is the child). */
  function Returning(forkPids: seq<int>, count: nat): (k: nat)
    requires count <= |forkPids|
    ensures k <= count
    ensures forall i :: 0 <= i < k ==> forkPids[i] > 0
    ensures k < count ==> forkPids[k] <= 0
  {
    if count == 0 || forkPids[0] <= 0 then 0
    else 1 + Returning(forkPids[1..], count - 1)
  }

  /** How `repeat` ends: every spawn came back, or one of them did not. */
  datatype RepeatOutcome = Finished | Halted(outcome: RunOutcome)

  /** `repeat`: `num = atoi(args[1])`; 0 returns at once; otherwise `run`
      starts `args[2..]` in the background `num` times (no time when `num`
      is negative), using the fork results `forkPids` in order. A missing
      program is only reported on the terminal. */
  method Repeat(reg: ProcessList, args: seq<string>, forkPids: seq<int>) returns (outcome: RepeatOutcome)
    requires reg.Valid()
    requires |args| >= 2
    requires CString.Atoi(args[1]) <= |forkPids|
    modifies reg, reg.nodes
    ensures reg.Valid()
    ensures CString.Atoi(args[1]) == 0 ==> outcome == Finished && unchanged(reg) && unchanged(old(reg.nodes))
    ensures var count := if CString.Atoi(args[1]) > 0 then CString.Atoi(args[1]) else 0;
            var k := Returning(forkPids, count);
            && reg.Contents == old(reg.Contents) + forkPids[..k]
            && outcome == if k == count then Finished
                          else Halted(if forkPids[k] == -1 then ForkFailed else InChild(args[2..]))
  {
    var num := CString.Atoi(args[1]);
    if num == 0 {
      return Finished;
    }
    var program := args[2..];
    ghost var count := if num > 0 then num else 0;
    var i := 0;
    while i < num
      invariant 0 <= i <= count
      invariant forall j :: 0 <= j < i ==> forkPids[j] > 0
      invariant reg.Valid()
      invariant reg.Contents == old(reg.Contents) + forkPids[..i]
      invariant forall j :: 0 <= j < |reg.nodes| ==> reg.nodes[j] in old(reg.nodes) || fresh(reg.nodes[j])
    {
      var r := Run(reg, program, true, forkPids[i], []);
      if !r.Background? {
        assert Returning(forkPids, count) == i;
        return Halted(r);
      }
      i := i + 1;
    }
    assert Returning(forkPids, count) == count;
    return Finished;
  }
}
