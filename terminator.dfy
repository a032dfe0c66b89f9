/** Killing registered background processes: `exterm` for one pid and
    `exterminateAll` for the whole registry. The result of `kill(pid, SIGKILL)`
    comes from the oracle `killed`: `killed(pid)` holds when the call
    returns 0. */
module Terminator {
  import opened Registry

  /** `exterm`: a failed kill reports 1 and leaves the list alone; a
      successful one unlinks the first cell holding `pid` (if any) and
      reports 0. */
  method Exterm(reg: ProcessList, pid: int, killed: int -> bool) returns (r: int)
    requires reg.Valid()
    modifies reg, reg.nodes
    ensures reg.Valid()
    ensures r == if killed(pid) then 0 else 1
    ensures !killed(pid) ==> unchanged(reg) && unchanged(old(reg.nodes))
    ensures killed(pid) ==> reg.Contents == RemoveFirst(old(reg.Contents), pid)
    ensures killed(pid) && old(reg.Contents) != [] && old(reg.Contents)[0] == pid ==>
              reg.nodes == old(reg.nodes)[1..] && unchanged(old(reg.nodes))
  {
    if !killed(pid) {
      return 1;
    }
    reg.DeleteId(pid);
    return 0;
  }

  /** `exterm(&curr, curr->data)` when the kill works: the cursor moves one
      cell on and no cell is written. */
  method ExtermFirst(curr: ProcessList, killed: int -> bool)
    requires curr.Valid() && curr.Contents != [] && killed(curr.Contents[0])
    modifies curr, curr.nodes
    ensures curr.Valid()
    ensures curr.Contents == old(curr.Contents)[1..] && curr.nodes == old(curr.nodes)[1..]
    ensures unchanged(old(curr.nodes))
  {
    assert curr.Contents[0] == curr.head.data;
    var _ := Exterm(curr, curr.head.data, killed);
  }

  /** One pass of the `exterminateAll` loop body on the part of the list
      still ahead of `curr`: `exterm(&curr, curr->data)` moves `curr` one
      cell on when the kill works and leaves it where it is otherwise. */
  function KillStep(rest: seq<int>, killed: int -> bool): (r: seq<int>)
    requires rest != []
    ensures r == rest || r == rest[1..]
    ensures r == rest[1..] <==> killed(rest[0])
  {
    if killed(rest[0]) then rest[1..] else rest
  }

  /** The part of the list still ahead of `curr` after `steps` passes of
      the loop, the counter `n` being `steps` (once nothing is left the loop
      has stopped). Each pass drops at most one pid. */
  function Pass(rest: seq<int>, steps: nat, killed: int -> bool): (r: seq<int>)
    ensures |rest| - steps <= |r| <= |rest|
  {
    if steps == 0 || rest == [] then rest
    else Pass(KillStep(rest, killed), steps - 1, killed)
  }

  /** What is left ahead of `curr` is always a tail of the list: the loop
      only moves the cursor forward and never relinks a cell. */
  lemma {:induction false} PassIsTail(rest: seq<int>, steps: nat, killed: int -> bool)
    ensures Pass(rest, steps, killed) == rest[|rest| - |Pass(rest, steps, killed)|..]
  {
    if steps > 0 && rest != [] {
      var next := KillStep(rest, killed);
      PassIsTail(next, steps - 1, killed);
      if next == rest[1..] {
        assert next[|next| - |Pass(next, steps - 1, killed)|..]
            == rest[|rest| - |Pass(next, steps - 1, killed)|..];
      }
    }
  }

  /** While every kill so far has worked, each pass consumes exactly one
      pid, in list order. */
  lemma {:induction false} PassKillsInOrder(rest: seq<int>, killed: int -> bool, steps: nat)
    requires steps <= |rest|
    requires forall i :: 0 <= i < steps ==> killed(rest[i])
    ensures Pass(rest, steps, killed) == rest[steps..]
  {
    if steps > 0 {
      assert killed(rest[0]);
      PassKillsInOrder(rest[1..], killed, steps - 1);
    }
  }

  /** A kill that fails at the front of what is left is tried again forever:
      every later pass finds the same non-empty remainder, so `curr` stays
      non-null and the loop never exits while `n` keeps growing. */
  lemma {:induction false} PassStuckOnFailedKill(rest: seq<int>, killed: int -> bool, steps: nat)
    requires rest != [] && !killed(rest[0])
    ensures Pass(rest, steps, killed) == rest
  {
    if steps > 0 {
      PassStuckOnFailedKill(rest, killed, steps - 1);
    }
  }

  /** With every kill working the loop runs exactly `|rest|` times: the
      remainder is non-empty before each of those passes and empty after
      the last. */
  lemma {:induction false} PassCountsAll(rest: seq<int>, killed: int -> bool)
    requires forall p :: p in rest ==> killed(p)
    ensures Pass(rest, |rest|, killed) == []
    ensures forall steps :: 0 <= steps < |rest| ==> Pass(rest, steps, killed) != []
  {
    forall steps | 0 <= steps <= |rest|
      ensures Pass(rest, steps, killed) == rest[steps..]
    {
      forall i | 0 <= i < steps
        ensures killed(rest[i])
      {
        var p := rest[i];
        assert p in rest;
      }
      PassKillsInOrder(rest, killed, steps);
    }
  }

  /** A registered pid whose kill fails, at position `j`, keeps the
      remainder non-empty after any number of passes. */
  lemma {:induction false} PassNeverEmpties(rest: seq<int>, killed: int -> bool, steps: nat, j: nat)
    requires j < |rest| && !killed(rest[j])
    ensures Pass(rest, steps, killed) != []
  {
    if !killed(rest[0]) {
      PassStuckOnFailedKill(rest, killed, steps);
    } else if steps > 0 {
      PassNeverEmpties(rest[1..], killed, steps - 1, j - 1);
    }
  }

  /** The loop of `exterminateAll` ever exits exactly when every kill of a
      registered pid works. */
  lemma {:induction false} PassExitsIffAllKilled(rest: seq<int>, killed: int -> bool)
    ensures (exists steps: nat :: Pass(rest, steps, killed) == []) <==> (forall p :: p in rest ==> killed(p))
  {
    if forall p :: p in rest ==> killed(p) {
      PassCountsAll(rest, killed);
    } else {
      var j :| 0 <= j < |rest| && !killed(rest[j]);
      forall steps: nat
        ensures Pass(rest, steps, killed) != []
      {
        PassNeverEmpties(rest, killed, steps, j);
      }
    }
  }

  /** `exterminateAll`. An empty list reports 1 and changes nothing.
      Otherwise a local cursor `curr` (a second header over the same cells)
      is handed to `Exterm` once per pass while `n` counts the passes; the
      cells themselves are never relinked, and afterwards `*head = NULL`
      empties the registry and 0 is reported. The loop only ends when every
      kill works, which is what this method requires; `PassStuckOnFailedKill`
      and `PassExitsIffAllKilled` state what happens otherwise. */
  method ExterminateAll(reg: ProcessList, killed: int -> bool) returns (r: int, n: nat)
    requires reg.Valid()
    requires forall p :: p in reg.Contents ==> killed(p)
    modifies reg, reg.nodes
    ensures reg.Valid()
    ensures old(reg.Contents) == [] ==> r == 1 && n == 0 && unchanged(reg)
    ensures old(reg.Contents) != [] ==> r == 0 && reg.Contents == [] && reg.head == null
    ensures n == |old(reg.Contents)| && Pass(old(reg.Contents), n, killed) == []
  {
    var curr := new ProcessList.Alias(reg);
    n := 0;
    if curr.head == null {
      return 1, 0;
    }
    while curr.head != null
      invariant fresh(curr) && curr.Valid()
      invariant n <= |old(reg.Contents)| && curr.Contents == old(reg.Contents)[n..]
      invariant n <= |old(reg.nodes)| && curr.nodes == old(reg.nodes)[n..]
      decreases |curr.Contents|
    {
      assert killed(curr.Contents[0]) by {
        assert curr.Contents[0] == old(reg.Contents)[n];
      }
      ExtermFirst(curr, killed);
      n := n + 1;
    }
    PassKillsInOrder(old(reg.Contents), killed, n);
    reg.Clear();
    r := 0;
  }
}
