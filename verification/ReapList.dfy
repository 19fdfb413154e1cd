/** The list of threads waiting to be reaped, `slist.c`, and the loop of `main` that empties it. */
module ReapList {
  import opened Bytes

  /** The part of `thread_data_t` the list looks at. */
  class ThreadData {
    var threadCompleteSuccess: bool

    constructor ()
      ensures !threadCompleteSuccess
    {
      threadCompleteSuccess := false;
    }
  }

  /** `slist_data_t`; `thread` is the address of the thread handle. */
  class Node {
    const thread: nat
    const threadData: ThreadData
    var next: Node?

    constructor (thread: nat, threadData: ThreadData, next: Node?)
      ensures this.thread == thread && this.threadData == threadData && this.next == next
    {
      this.thread, this.threadData, this.next := thread, threadData, next;
    }
  }

  ghost predicate Distinct(nodes: seq<Node>) {
    forall i, j :: 0 <= i < j < |nodes| ==> nodes[i] != nodes[j]
  }

  function NodeAt(nodes: seq<Node>, i: nat): Node?
  {
    if i < |nodes| then nodes[i] else null
  }

  /** Following `next` from `head` visits exactly `nodes`, each once, and then stops. */
  ghost predicate Linked(head: Node?, nodes: seq<Node>)
    reads nodes
  {
    && Distinct(nodes)
    && head == NodeAt(nodes, 0)
    && forall i :: 0 <= i < |nodes| ==> nodes[i].next == NodeAt(nodes, i + 1)
  }

  ghost predicate NoneIn(nodes: seq<Node>, freed: set<Node>) {
    forall i :: 0 <= i < |nodes| ==> nodes[i] !in freed
  }

  ghost function Without(nodes: seq<Node>, i: nat): seq<Node>
    requires i < |nodes|
  {
    nodes[..i] + nodes[i + 1..]
  }

  /** A node taken off the list was not freed before, and freeing it frees nothing still listed. */
  lemma WithoutFreed(nodes: seq<Node>, i: nat, freed: set<Node>)
    requires Distinct(nodes) && i < |nodes| && NoneIn(nodes, freed)
    ensures nodes[i] !in freed
    ensures NoneIn(Without(nodes, i), freed + {nodes[i]})
  {
  }

  lemma WithoutFacts(nodes: seq<Node>, i: nat)
    requires Distinct(nodes) && i < |nodes|
    ensures |Without(nodes, i)| == |nodes| - 1 && Distinct(Without(nodes, i))
    ensures forall k :: 0 <= k < |nodes| - 1 ==>
      Without(nodes, i)[k] == (if k < i then nodes[k] else nodes[k + 1]) && Without(nodes, i)[k] != nodes[i]
  {
  }

  /** The nodes whose thread has (or has not) completed, in list order. */
  ghost function Having(nodes: seq<Node>, complete: bool): seq<Node>
    reads set n | n in nodes :: n.threadData
  {
    if nodes == [] then []
    else
      (if nodes[0].threadData.threadCompleteSuccess == complete then [nodes[0]] else [])
      + Having(nodes[1..], complete)
  }

  lemma {:induction false} HavingConcat(a: seq<Node>, b: seq<Node>, complete: bool)
    ensures Having(a + b, complete) == Having(a, complete) + Having(b, complete)
  {
    if a == [] {
      assert a + b == b;
    } else {
      assert (a + b)[1..] == a[1..] + b;
      HavingConcat(a[1..], b, complete);
    }
  }

  lemma {:induction false} HavingAllIncomplete(nodes: seq<Node>)
    requires forall i :: 0 <= i < |nodes| ==> !nodes[i].threadData.threadCompleteSuccess
    ensures Having(nodes, false) == nodes && Having(nodes, true) == []
  {
    if nodes != [] {
      HavingAllIncomplete(nodes[1..]);
      assert nodes == [nodes[0]] + nodes[1..];
    }
  }

  lemma HavingSplit(nodes: seq<Node>, i: nat, complete: bool)
    requires i < |nodes|
    ensures Having(nodes, complete) ==
      Having(nodes[..i], complete)
      + (if nodes[i].threadData.threadCompleteSuccess == complete then [nodes[i]] else [])
      + Having(nodes[i + 1..], complete)
  {
    var rest := nodes[i..];
    HavingConcat(nodes[..i], rest, complete);
    assert nodes == nodes[..i] + rest && rest[1..] == nodes[i + 1..];
  }

  /** Taking out the first completed node takes the first of the completed ones and none of the others. */
  lemma HavingWithout(nodes: seq<Node>, i: nat)
    requires i < |nodes| && nodes[i].threadData.threadCompleteSuccess
    requires forall k :: 0 <= k < i ==> !nodes[k].threadData.threadCompleteSuccess
    ensures Having(nodes, true) == [nodes[i]] + Having(Without(nodes, i), true)
    ensures Having(nodes, false) == Having(Without(nodes, i), false)
  {
    hide Having;
    HavingAllIncomplete(nodes[..i]);
    HavingSplit(nodes, i, true);
    HavingSplit(nodes, i, false);
    HavingConcat(nodes[..i], nodes[i + 1..], true);
    HavingConcat(nodes[..i], nodes[i + 1..], false);
  }

  lemma JoinFirst(a: seq<Node>, n: Node, b: seq<Node>)
    ensures a + ([n] + b) == (a + [n]) + b
  {
  }

  /** The nodes not in `taken`, in list order. */
  ghost function Except(nodes: seq<Node>, taken: set<Node>): seq<Node> {
    if nodes == [] then []
    else (if nodes[0] in taken then [] else [nodes[0]]) + Except(nodes[1..], taken)
  }

  lemma {:induction false} ExceptMembers(nodes: seq<Node>, taken: set<Node>)
    ensures forall n :: n in Except(nodes, taken) <==> n in nodes && n !in taken
  {
    if nodes != [] {
      ExceptMembers(nodes[1..], taken);
      assert nodes == [nodes[0]] + nodes[1..];
    }
  }

  lemma {:induction false} ExceptAt(nodes: seq<Node>, taken: set<Node>, i: nat)
    requires i < |Except(nodes, taken)|
    ensures Except(nodes, taken)[i] in nodes && Except(nodes, taken)[i] !in taken
  {
    if nodes[0] in taken {
      ExceptAt(nodes[1..], taken, i);
    } else if i > 0 {
      ExceptAt(nodes[1..], taken, i - 1);
    }
  }

  lemma {:induction false} ExceptNone(nodes: seq<Node>)
    ensures Except(nodes, {}) == nodes
  {
    if nodes != [] {
      ExceptNone(nodes[1..]);
      assert nodes == [nodes[0]] + nodes[1..];
    }
  }

  lemma WithoutCons(first: Node, rest: seq<Node>, i: nat)
    requires i < |rest|
    ensures Without([first] + rest, i + 1) == [first] + Without(rest, i)
  {
  }

  lemma ExceptCons(nodes: seq<Node>, taken: set<Node>)
    requires nodes != []
    ensures Except(nodes, taken) ==
      if nodes[0] in taken then Except(nodes[1..], taken) else [nodes[0]] + Except(nodes[1..], taken)
  {
  }

  /** Taking one more node out of what is left. */
  lemma {:induction false} ExceptWithout(nodes: seq<Node>, taken: set<Node>, i: nat)
    requires Distinct(nodes) && i < |Except(nodes, taken)|
    ensures Without(Except(nodes, taken), i) == Except(nodes, taken + {Except(nodes, taken)[i]})
  {
    if nodes != [] {
      var left, rest := Except(nodes, taken), Except(nodes[1..], taken);
      var n := left[i];
      ExceptCons(nodes, taken);
      ExceptCons(nodes, taken + {n});
      assert Distinct(nodes[1..]) && nodes[0] !in nodes[1..];
      hide Except, Without, Distinct;
      if nodes[0] in taken {
        ExceptWithout(nodes[1..], taken, i);
      } else if i == 0 {
        WithoutFirst(nodes[0], rest);
        ExceptIrrelevant(nodes[1..], taken, nodes[0]);
      } else {
        assert n == rest[i - 1] && n in rest;
        ExceptAt(nodes[1..], taken, i - 1);
        ExceptWithout(nodes[1..], taken, i - 1);
        WithoutCons(nodes[0], rest, i - 1);
      }
    }
  }

  lemma WithoutFirst(first: Node, rest: seq<Node>)
    ensures Without([first] + rest, 0) == rest
  {
  }

  lemma {:induction false} ExceptIrrelevant(nodes: seq<Node>, taken: set<Node>, n: Node)
    requires n !in nodes
    ensures Except(nodes, taken + {n}) == Except(nodes, taken)
  {
    if nodes != [] {
      ExceptIrrelevant(nodes[1..], taken, n);
    }
  }

  /** When exactly the nodes outside `taken` are incomplete, they are the incomplete ones in order. */
  lemma {:induction false} ExceptIsHaving(nodes: seq<Node>, taken: set<Node>)
    requires forall n :: n in nodes ==> (n in taken <==> n.threadData.threadCompleteSuccess)
    ensures Except(nodes, taken) == Having(nodes, false)
  {
    if nodes != [] {
      assert nodes[0] in nodes;
      ExceptIsHaving(nodes[1..], taken);
    }
  }

  ghost function Members(nodes: seq<Node>): set<Node> {
    set n | n in nodes
  }

  /** Where reaping stands: from the list `all`, `taken` were handed out as `reaped` and freed, `left` remain. */
  ghost predicate Reaping(all: seq<Node>, left: seq<Node>, taken: seq<Node>, reaped: seq<(nat, ThreadData)>,
                          freed0: set<Node>, freed: set<Node>) {
    && left == Except(all, Members(taken))
    && Distinct(taken) && Members(taken) <= Members(all)
    && |reaped| == |taken|
    && (forall k :: 0 <= k < |reaped| ==> reaped[k] == (taken[k].thread, taken[k].threadData))
    && freed == freed0 + Members(taken)
  }

  lemma ReapingStarts(all: seq<Node>, freed: set<Node>)
    ensures Reaping(all, all, [], [], freed, freed)
  {
    ExceptNone(all);
    assert Members([]) == {};
  }

  lemma ReapingLeft(all: seq<Node>, left: seq<Node>, taken: seq<Node>, reaped: seq<(nat, ThreadData)>,
                    freed0: set<Node>, freed: set<Node>)
    requires Reaping(all, left, taken, reaped, freed0, freed)
    ensures forall k :: 0 <= k < |left| ==> left[k] in all && left[k] !in taken
  {
    forall k | 0 <= k < |left| ensures left[k] in all && left[k] !in taken {
      ExceptAt(all, Members(taken), k);
    }
  }

  lemma ReapingStep(all: seq<Node>, left: seq<Node>, taken: seq<Node>, reaped: seq<(nat, ThreadData)>,
                    freed0: set<Node>, freed: set<Node>, i: nat)
    requires Distinct(all) && i < |left|
    requires Reaping(all, left, taken, reaped, freed0, freed)
    ensures Reaping(all, Without(left, i), taken + [left[i]],
                    reaped + [(left[i].thread, left[i].threadData)], freed0, freed + {left[i]})
  {
    ReapingLeft(all, left, taken, reaped, freed0, freed);
    ExceptWithout(all, Members(taken), i);
    assert Members(taken + [left[i]]) == Members(taken) + {left[i]};
  }

  /** Once nobody left has completed, those left are the incomplete ones and those taken the completed ones. */
  lemma ReapingEnds(all: seq<Node>, left: seq<Node>, taken: seq<Node>, reaped: seq<(nat, ThreadData)>,
                    freed0: set<Node>, freed: set<Node>)
    requires Reaping(all, left, taken, reaped, freed0, freed)
    requires forall k :: 0 <= k < |left| ==> !left[k].threadData.threadCompleteSuccess
    requires forall n :: n in taken ==> n.threadData.threadCompleteSuccess
    ensures left == Having(all, false)
    ensures forall n :: n in taken <==> n in all && n.threadData.threadCompleteSuccess
  {
    ExceptMembers(all, Members(taken));
    forall n | n in all ensures n in Members(taken) <==> n.threadData.threadCompleteSuccess {
      if n !in taken {
        assert n in left;
      }
    }
    ExceptIsHaving(all, Members(taken));
    forall n | n in taken ensures n in all {
      assert n in Members(taken);
    }
  }

  ghost predicate Within(these: seq<ThreadData>, workers: set<ThreadData>) {
    forall k :: 0 <= k < |these| ==> these[k] in workers
  }

  class ThreadList {
    var head: Node?
    ghost var nodes: seq<Node>

    /** The list entries given back with `free`. */
    ghost var freed: set<Node>

    ghost predicate Valid()
      reads this, nodes
    {
      && Linked(head, nodes)
      && NoneIn(nodes, freed)
    }

    /** `initialize_list` */
    constructor ()
      ensures Valid() && nodes == [] && freed == {}
    {
      head := null;
      nodes, freed := [], {};
    }

    /** `insert_thread_data` */
    method InsertThreadData(thread: nat, threadData: ThreadData)
      requires Valid()
      modifies this
      ensures Valid()
      ensures freed == old(freed)
      ensures |nodes| == |old(nodes)| + 1 && nodes[1..] == old(nodes) && fresh(nodes[0])
      ensures nodes[0].thread == thread && nodes[0].threadData == threadData
    {
      var entry := new Node(thread, threadData, head);
      head := entry;
      nodes := [entry] + nodes;
    }

    /** The search loop inside `SLIST_REMOVE`. */
    method Predecessor(elm: Node, ghost i: nat) returns (cur: Node)
      requires Valid() && 0 < i < |nodes| && nodes[i] == elm
      ensures cur == nodes[i - 1]
    {
      cur := head;
      ghost var k: nat := 0;
      while cur.next != elm
        invariant k < i && cur == nodes[k]
        decreases i - k
      {
        cur := cur.next;
        k := k + 1;
      }
    }

    /** `SLIST_REMOVE`, which steps over the element, then `free` of the element. */
    method Remove(elm: Node, ghost i: nat)
      requires Valid() && i < |nodes| && nodes[i] == elm
      modifies this, nodes
      ensures Valid()
      ensures nodes == Without(old(nodes), i)
      ensures elm !in old(freed) && freed == old(freed) + {elm}
    {
      WithoutFreed(nodes, i, freed);
      hide NoneIn;
      WithoutFacts(nodes, i);
      if head == elm {
        head := head.next;
      } else {
        var cur := Predecessor(elm, i);
        cur.next := cur.next.next;
      }
      nodes, freed := Without(nodes, i), freed + {elm};
    }

    /** `check_list`: removes the first completed entry and hands out its pair. */
    method CheckList() returns (found: Option<(nat, ThreadData)>, ghost i: nat)
      requires Valid()
      modifies this, nodes
      ensures Valid()
      ensures i <= |old(nodes)|
      ensures forall k :: 0 <= k < i ==> !old(nodes)[k].threadData.threadCompleteSuccess
      ensures i == |old(nodes)| ==> found == None && nodes == old(nodes) && freed == old(freed)
      ensures i < |old(nodes)| ==>
        && old(nodes)[i].threadData.threadCompleteSuccess
        && found == Some((old(nodes)[i].thread, old(nodes)[i].threadData))
        && nodes == Without(old(nodes), i)
        && freed == old(freed) + {old(nodes)[i]}
    {
      var entry := head;
      i := 0;
      while entry != null
        invariant i <= |nodes| && entry == NodeAt(nodes, i)
        invariant forall k :: 0 <= k < i ==> !nodes[k].threadData.threadCompleteSuccess
        decreases |nodes| - i
      {
        if entry.threadData.threadCompleteSuccess {
          found := Some((entry.thread, entry.threadData));
          Remove(entry, i);
          return;
        }
        entry := entry.next;
        i := i + 1;
      }
      found := None;
    }

    /** `free_list`: removes the first entry, complete or not. */
    method FreeList() returns (found: Option<(nat, ThreadData)>)
      requires Valid()
      modifies this, nodes
      ensures Valid()
      ensures old(nodes) == [] ==> found == None && nodes == [] && freed == old(freed)
      ensures old(nodes) != [] ==>
        && found == Some((old(nodes)[0].thread, old(nodes)[0].threadData))
        && nodes == old(nodes)[1..] && freed == old(freed) + {old(nodes)[0]}
    {
      if head == null {
        return None;
      }
      found := Some((head.thread, head.threadData));
      Remove(head, 0);
    }

    /** Other threads setting their completion flags. */
    method OthersComplete(these: seq<ThreadData>)
      modifies these
      ensures forall d :: d in these ==> d.threadCompleteSuccess
    {
      for k := 0 to |these|
        invariant forall j :: 0 <= j < k ==> these[j].threadCompleteSuccess
      {
        these[k].threadCompleteSuccess := true;
      }
    }

    /** One `check_list`, some workers having completed since the one before. */
    method CheckListAfter(these: seq<ThreadData>, ghost workers: set<ThreadData>, ghost all: seq<Node>)
      returns (found: Option<(nat, ThreadData)>, ghost i: nat)
      requires Valid() && forall k :: 0 <= k < |nodes| ==> nodes[k] in all
      requires Within(these, workers)
      modifies this, all, workers
      ensures Valid()
      ensures forall d: ThreadData :: old(allocated(d)) && old(d.threadCompleteSuccess) ==> d.threadCompleteSuccess
      ensures these == [] ==> Having(old(nodes), true) == old(Having(nodes, true))
      ensures i <= |old(nodes)|
      ensures forall k :: 0 <= k < i ==> !old(nodes)[k].threadData.threadCompleteSuccess
      ensures i == |old(nodes)| ==> found == None && nodes == old(nodes) && freed == old(freed)
      ensures i < |old(nodes)| ==>
        && old(nodes)[i].threadData.threadCompleteSuccess
        && found == Some((old(nodes)[i].thread, old(nodes)[i].threadData))
        && nodes == Without(old(nodes), i) && |nodes| == |old(nodes)| - 1 && freed == old(freed) + {old(nodes)[i]}
    {
      hide Linked, Distinct, NoneIn, Having;
      if these != [] {
        OthersComplete(these);
      }
      found, i := CheckList();
    }

    /** Where the loop of `main` stands after reaping `taken`. */
    ghost predicate Halfway(all: seq<Node>, taken: seq<Node>, reaped: seq<(nat, ThreadData)>, freed0: set<Node>)
      reads this, nodes, set n | n in taken :: n.threadData
    {
      && Valid() && Reaping(all, nodes, taken, reaped, freed0, freed)
      && (forall k :: 0 <= k < |nodes| ==> nodes[k] in all)
      && (forall k :: 0 <= k < |taken| ==> taken[k].threadData.threadCompleteSuccess)
    }

    lemma HalfwayStarts()
      requires Valid()
      ensures Distinct(nodes) && Halfway(nodes, [], [], freed)
    {
      ReapingStarts(nodes, freed);
    }

    lemma HalfwayEnds(all: seq<Node>, taken: seq<Node>, reaped: seq<(nat, ThreadData)>, freed0: set<Node>)
      requires Halfway(all, taken, reaped, freed0)
      requires forall k :: 0 <= k < |nodes| ==> !nodes[k].threadData.threadCompleteSuccess
      ensures Valid() && Reaping(all, nodes, taken, reaped, freed0, freed)
      ensures nodes == Having(all, false) && Having(nodes, true) == []
      ensures forall n :: n in taken <==> n in all && n.threadData.threadCompleteSuccess
    {
      ReapingEnds(all, nodes, taken, reaped, freed0, freed);
      HavingAllIncomplete(nodes);
    }

    /** One turn of the loop; `more` is false when `check_list` found nothing. */
    method ReapNext(these: seq<ThreadData>, ghost workers: set<ThreadData>, ghost all: seq<Node>,
                    reaped: seq<(nat, ThreadData)>, ghost taken: seq<Node>, ghost freed0: set<Node>)
      returns (more: bool, reaped': seq<(nat, ThreadData)>, ghost taken': seq<Node>)
      requires Distinct(all) && Halfway(all, taken, reaped, freed0)
      requires Within(these, workers)
      modifies this, all, workers
      ensures Halfway(all, taken', reaped', freed0)
      ensures more ==> |nodes| < |old(nodes)|
      ensures !more ==> forall k :: 0 <= k < |nodes| ==> !nodes[k].threadData.threadCompleteSuccess
      ensures these == [] ==> taken' + Having(nodes, true) == taken + old(Having(nodes, true))
    {
      ghost var before, freedBefore := nodes, freed;
      var found, i := CheckListAfter(these, workers, all);
      hide Valid, Distinct, Having, Reaping, Without, Within;
      more, reaped', taken' := found != None, reaped, taken;
      if more {
        HavingWithout(before, i);
        ReapingStep(all, before, taken, reaped, freed0, freedBefore, i);
        reaped', taken' := reaped + [found.value], taken + [before[i]];
        ReapingLeft(all, nodes, taken', reaped', freed0, freed);
        JoinFirst(taken, before[i], Having(nodes, true));
      }
    }

    /**
     * The inner loop of `main`: reaps until `check_list` finds nothing, while workers go on completing;
     * `completing[k]` are those that set their flag just before the k-th `check_list`.  Whatever they do,
     * what stays on the list is incomplete at the end, in its old order, and everything else was handed
     * out and freed once.
     */
    method ReapAll(completing: seq<seq<ThreadData>>, ghost workers: set<ThreadData>)
      returns (reaped: seq<(nat, ThreadData)>, ghost taken: seq<Node>)
      requires Valid()
      requires forall k :: 0 <= k < |completing| ==> Within(completing[k], workers)
      modifies this, nodes, workers
      ensures Valid()
      ensures Reaping(old(nodes), nodes, taken, reaped, old(freed), freed)
      ensures nodes == Having(old(nodes), false)
      ensures forall n :: n in taken <==> n in old(nodes) && n.threadData.threadCompleteSuccess
      ensures (forall k :: 0 <= k < |completing| ==> completing[k] == []) ==> taken == old(Having(nodes, true))
    {
      ghost var all, freed0, inOrder := nodes, freed, Having(nodes, true);
      ghost var quiet := forall k :: 0 <= k < |completing| ==> completing[k] == [];
      reaped, taken := [], [];
      var round, more := 0, true;
      HalfwayStarts();
      assert [] + Having(nodes, true) == inOrder && Within([], workers);
      hide *;
      while more
        invariant round <= |completing| && Halfway(all, taken, reaped, freed0)
        invariant quiet ==> taken + Having(nodes, true) == inOrder
        invariant !more ==> forall k :: 0 <= k < |nodes| ==> !nodes[k].threadData.threadCompleteSuccess
        decreases more, |nodes|
      {
        var these := if round < |completing| then completing[round] else [];
        round := if round < |completing| then round + 1 else round;
        more, reaped, taken := ReapNext(these, workers, all, reaped, taken, freed0);
      }
      HalfwayEnds(all, taken, reaped, freed0);
      assert taken + [] == taken;
    }
  }
}
