/** The shell's registry of background process ids: a singly linked list of
    `Node`s reached from a head pointer, appended at the tail and unlinked by
    pid. The abstract value of a list is the sequence of pids in list order. */
module Registry {

  /** The abstract effect of unlinking: the first occurrence of `pid` is
      dropped, everything else keeps its order. */
  function RemoveFirst(s: seq<int>, pid: int): (r: seq<int>)
    ensures |r| == if pid in s then |s| - 1 else |s|
  {
    if s == [] then []
    else if s[0] == pid then s[1..]
    else [s[0]] + RemoveFirst(s[1..], pid)
  }

  /** Removing an absent pid changes nothing. */
  lemma {:induction false} RemoveFirstAbsent(s: seq<int>, pid: int)
    requires pid !in s
    ensures RemoveFirst(s, pid) == s
  {
    if s != [] {
      RemoveFirstAbsent(s[1..], pid);
    }
  }

  /** When `k` is the position of the first occurrence of `pid`, exactly that
      entry is removed and the entries before and after it are kept in order. */
  lemma {:induction false} RemoveFirstAt(s: seq<int>, pid: int, k: nat)
    requires k < |s| && s[k] == pid && pid !in s[..k]
    ensures RemoveFirst(s, pid) == s[..k] + s[k + 1..]
  {
    if k > 0 {
      assert s[0] in s[..k];
      assert s[1..][..k - 1] == s[1..k];
      RemoveFirstAt(s[1..], pid, k - 1);
      assert s[..k] == [s[0]] + s[1..k];
      assert s[1..][k..] == s[k + 1..];
    }
  }

  /** Removal keeps every pid other than `pid` and adds none. */
  lemma {:induction false} RemoveFirstMembers(s: seq<int>, pid: int, x: int)
    ensures x in RemoveFirst(s, pid) ==> x in s
    ensures x in s && x != pid ==> x in RemoveFirst(s, pid)
  {
    if s != [] && s[0] != pid {
      RemoveFirstMembers(s[1..], pid, x);
    }
  }

  /** Unlinking a pid that was just appended to a list not holding it gives
      back the list as it was before the append. */
  lemma {:induction false} RemoveFirstUndoesAppend(s: seq<int>, pid: int)
    requires pid !in s
    ensures RemoveFirst(s + [pid], pid) == s
  {
    RemoveFirstAt(s + [pid], pid, |s|);
    assert (s + [pid])[..|s|] == s;
  }

  /** Every pid occurs at most once. */
  ghost predicate Distinct(s: seq<int>)
  {
    forall i, j :: 0 <= i < j < |s| ==> s[i] != s[j]
  }

  /** In a registry without duplicates, a removed pid is gone afterwards and
      no duplicate appears. */
  lemma {:induction false} RemoveFirstErases(s: seq<int>, pid: int)
    requires Distinct(s)
    ensures pid !in RemoveFirst(s, pid)
    ensures Distinct(RemoveFirst(s, pid))
  {
    if s != [] {
      assert Distinct(s[1..]) by {
        forall i, j | 0 <= i < j < |s| - 1 ensures s[1..][i] != s[1..][j] {
          assert s[i + 1] != s[j + 1];
        }
      }
      if s[0] == pid {
        forall i | 0 <= i < |s| - 1 ensures s[1..][i] != pid {
          assert s[0] != s[i + 1];
        }
      } else {
        RemoveFirstErases(s[1..], pid);
        var t := RemoveFirst(s[1..], pid);
        assert s[0] !in t by {
          RemoveFirstMembers(s[1..], pid, s[0]);
          forall i | 0 <= i < |s| - 1 ensures s[1..][i] != s[0] {
            assert s[0] != s[i + 1];
          }
        }
        forall i, j | 0 <= i < j < |t| + 1 ensures ([s[0]] + t)[i] != ([s[0]] + t)[j] {
          if i == 0 {
            assert ([s[0]] + t)[j] == t[j - 1];
          }
        }
      }
    }
  }

  /** `struct Node`: one list cell. The pid is set once by `newNode`. */
  class Node {
    const data: int
    var next: Node?

    /** `newNode`: a fresh cell holding `pid` with no successor. */
    constructor (pid: int)
      ensures data == pid && next == null
    {
      data := pid;
      next := null;
    }
  }

  /** A list header `struct Node *head`, with the cells it reaches in
      order (`nodes`) and their pids (`Contents`). */
  class ProcessList {
    var head: Node?
    ghost var nodes: seq<Node>
    ghost var Contents: seq<int>

    /** The cells form a null-terminated chain from `head`, each cell once,
        and their pids are `Contents`. */
    ghost predicate Valid()
      reads this, nodes
    {
      && |nodes| == |Contents|
      && head == (if nodes == [] then null else nodes[0])
      && (forall i :: 0 <= i < |nodes| ==> nodes[i].data == Contents[i])
      && (forall i {:trigger nodes[i].next} :: 0 <= i < |nodes| - 1 ==> nodes[i].next == nodes[i + 1])
      && (nodes != [] ==> nodes[|nodes| - 1].next == null)
      && (forall i, j :: 0 <= i < j < |nodes| ==> nodes[i] != nodes[j])
    }

    /** `struct Node *head = NULL`: the empty registry. */
    constructor ()
      ensures Valid() && Contents == [] && nodes == []
    {
      head := null;
      nodes := [];
      Contents := [];
    }

    /** A second header over the same cells: a local `struct Node *` that
        copies `other`'s head and whose address is then passed where a
        `struct Node **` is expected. */
    constructor Alias(other: ProcessList)
      requires other.Valid()
      ensures Valid()
      ensures head == other.head && nodes == other.nodes && Contents == other.Contents
    {
      head := other.head;
      nodes := other.nodes;
      Contents := other.Contents;
    }

    /** `*head = NULL`: the header forgets every cell. */
    method Clear()
      modifies this
      ensures Valid() && head == null && nodes == [] && Contents == []
    {
      head := null;
      nodes := [];
      Contents := [];
    }

    /** `printList`: the pids in the order the walk visits them. */
    method Print() returns (shown: seq<int>)
      requires Valid()
      ensures shown == Contents
    {
      var ptr := head;
      shown := [];
      ghost var k := 0;
      while ptr != null
        invariant 0 <= k <= |nodes|
        invariant ptr == if k < |nodes| then nodes[k] else null
        invariant shown == Contents[..k]
        decreases |nodes| - k
      {
        shown := shown + [ptr.data];
        ptr := ptr.next;
        k := k + 1;
      }
    }

    /** `appendNode`: walk to the last cell and link a fresh one holding
        `pid` after it; an empty list gets the new cell as its head. No
        existing cell other than the old tail is touched. */
    method Append(pid: int)
      requires Valid()
      modifies this, nodes
      ensures Valid()
      ensures Contents == old(Contents) + [pid]
      ensures |nodes| == |old(nodes)| + 1 && nodes[..|old(nodes)|] == old(nodes)
      ensures fresh(nodes[|old(nodes)|])
      ensures old(nodes) == [] ==> head == nodes[0]
      ensures old(nodes) != [] ==> head == old(head)
      ensures forall i :: 0 <= i < |old(nodes)| - 1 ==> unchanged(old(nodes)[i])
    {
      var curr := head;
      var node := new Node(pid);
      ghost var ns := nodes;
      if curr == null {
        head := node;
      } else {
        ghost var k := 0;
        while curr.next != null
          invariant 0 <= k < |nodes| && curr == nodes[k]
          decreases |nodes| - k
        {
          curr := curr.next;
          k := k + 1;
        }
        assert k == |ns| - 1;
        curr.next := node;
      }
      nodes := nodes + [node];
      Contents := Contents + [pid];
    }

    /** `deleteID`: unlink the first cell holding `pid`. The head case moves
        the head to its successor and touches no cell; otherwise the
        predecessor is relinked past the cell. A missing pid changes nothing. */
    method DeleteId(pid: int)
      requires Valid()
      modifies this, nodes
      ensures Valid()
      ensures Contents == RemoveFirst(old(Contents), pid)
      ensures pid !in old(Contents) ==> unchanged(this) && unchanged(old(nodes))
      ensures old(Contents) != [] && old(Contents)[0] == pid ==>
                head == old(head.next) && nodes == old(nodes)[1..] && unchanged(old(nodes))
    {
      var curr, prev := head, null;
      ghost var k := 0;
      // The search; `deleteID` unlinks and returns from inside the loop,
      // here the unlinking follows the loop and nothing else runs after it.
      while curr != null
        invariant 0 <= k <= |nodes|
        invariant curr == if k < |nodes| then nodes[k] else null
        invariant prev == if k == 0 then null else nodes[k - 1]
        invariant pid !in Contents[..k]
        decreases |nodes| - k
      {
        if pid == curr.data {
          break;
        }
        prev := curr;
        curr := curr.next;
        k := k + 1;
      }
      if curr == null {
        assert Contents[..k] == Contents;
        RemoveFirstAbsent(Contents, pid);
        return;
      }
      ghost var ns, cs := nodes, Contents;
      if prev == null {
        head := curr.next;
        nodes, Contents := ns[1..], cs[1..];
        assert Contents == RemoveFirst(cs, pid) by {
          RemoveFirstAt(cs, pid, k);
          assert cs[..0] + cs[1..] == cs[1..];
        }
      } else {
        UnlinkAfter(prev, k);
        assert Contents == RemoveFirst(cs, pid) by {
          RemoveFirstAt(cs, pid, k);
        }
      }
    }

    /** The relinking step of `deleteID` for a match at position `k > 0`:
        the predecessor `prev` is pointed past the cell, and only `prev`
        and the cell are written. */
    method UnlinkAfter(prev: Node, ghost k: nat)
      requires Valid() && 0 < k < |nodes| && prev == nodes[k - 1]
      modifies this, prev, nodes[k]
      ensures Valid()
      ensures nodes == old(nodes[..k] + nodes[k + 1..]) && Contents == old(Contents[..k] + Contents[k + 1..])
      ensures head == old(head)
    {
      var curr := prev.next;
      ghost var ns, cs := nodes, Contents;
      assert curr == ns[k] && prev != curr;
      ghost var succ := curr.next;
      prev.next := curr.next;
      curr.next := prev.next;  // stores back the value it already holds
      assert prev.next == succ && curr.next == succ;
      nodes, Contents := ns[..k] + ns[k + 1..], cs[..k] + cs[k + 1..];
      forall i | 0 <= i < |nodes| - 1
        ensures nodes[i].next == nodes[i + 1]
      {
        if i < k - 1 {
          assert nodes[i] == ns[i] && nodes[i + 1] == ns[i + 1];
        } else if i == k - 1 {
          assert nodes[i] == prev && nodes[i + 1] == ns[k + 1];
        } else {
          assert nodes[i] == ns[i + 1] && nodes[i + 1] == ns[i + 2];
        }
      }
      assert nodes[|nodes| - 1].next == null by {
        if k == |ns| - 1 {
          assert nodes[|nodes| - 1] == prev;
        } else {
          assert nodes[|nodes| - 1] == ns[|ns| - 1];
        }
      }
      forall i | 0 <= i < |nodes|
        ensures nodes[i].data == Contents[i]
      {
        if i < k {
          assert nodes[i] == ns[i] && Contents[i] == cs[i];
        } else {
          assert nodes[i] == ns[i + 1] && Contents[i] == cs[i + 1];
        }
      }
      forall i, j | 0 <= i < j < |nodes|
        ensures nodes[i] != nodes[j]
      {
        var i', j' := if i < k then i else i + 1, if j < k then j else j + 1;
        assert nodes[i] == ns[i'] && nodes[j] == ns[j'];
      }
    }
  }
}
