/** The linked list of tasks (src/proc/task.c). As written, removing a task leaves its
    successor's prev link pointing to it; repaired adds the missing line. */
module TaskList {
  import opened Wrappers

  class Task {
    // address of the task structure, and of the chunk of its address space
    const address: nat
    const pageDirectory: nat
    var next: Task?
    var prev: Task?

    constructor (address: nat, pageDirectory: nat)
      ensures this.address == address && this.pageDirectory == pageDirectory && next == null && prev == null
    {
      this.address := address;
      this.pageDirectory := pageDirectory;
      next := null;
      prev := null;
    }
  }

  /** s without the element at index i. */
  ghost function Without(s: seq<Task>, i: nat): seq<Task>
    requires i < |s|
  {
    s[..i] + s[i + 1..]
  }

  lemma WithoutIs(s: seq<Task>, i: nat)
    requires i < |s|
    ensures |Without(s, i)| == |s| - 1
    ensures i < |s| - 1 ==> Without(s, i)[i] == s[i + 1]
    ensures |s| > 1 ==> Without(s, i)[0] == s[if i == 0 then 1 else 0]
    ensures |s| > 1 ==> Without(s, i)[|s| - 2] == s[if i == |s| - 1 then i - 1 else |s| - 1]
    ensures forall j :: 0 <= j < |s| && j != i ==> s[j] in Without(s, i)
  {
    forall j | 0 <= j < |s| && j != i ensures s[j] in Without(s, i) {
      assert Without(s, i)[if j < i then j else j - 1] == s[j];
    }
  }

  class List {
    const repaired: bool
    var head: Task?
    var tail: Task?
    var current: Task?
    // The tasks in order, and those whose prev link points to a task that was removed
    // (and whose memory may since have become a task further down the list).
    ghost var nodes: seq<Task>
    ghost var stale: set<Task>

    ghost predicate NextLink(i: nat)
      requires i < |nodes|
      reads this, nodes
    {
      nodes[i].next == if i + 1 < |nodes| then nodes[i + 1] else null
    }

    /** head and the next links run through the tasks in order. */
    ghost predicate Linked()
      reads this, nodes
    {
      && Distinct(nodes)
      && head == (if nodes == [] then null else nodes[0])
      && forall i :: 0 <= i < |nodes| ==> NextLink(i)
    }

    ghost predicate PrevLink(i: nat)
      requires i < |nodes|
      reads this, nodes
    {
      if nodes[i] in stale then nodes[i].prev != null && forall j :: 0 <= j <= i ==> nodes[j] != nodes[i].prev
      else nodes[i].prev == if i == 0 then null else nodes[i - 1]
    }

    ghost predicate PrevLinks()
      reads this, nodes
    {
      && (forall i :: 0 <= i < |nodes| ==> PrevLink(i))
      && (forall t :: t in stale ==> t in nodes)
    }

    /** The list is right for everything the code does with it; tail is not used while
        the list is empty. */
    ghost predicate Valid()
      reads this, nodes
    {
      && Linked() && PrevLinks()
      && (nodes != [] ==> tail == nodes[|nodes| - 1])
      && (if nodes == [] then current == null else current != null && current in nodes)
      && (repaired ==> stale == {})
    }

    constructor (repaired: bool)
      ensures Valid() && nodes == [] && stale == {} && this.repaired == repaired
    {
      this.repaired := repaired;
      head, tail, current := null, null, null;
      nodes := [];
      stale := {};
    }

    /** The end of task_new: the new task becomes the last one. */
    method Append(task: Task)
      requires Valid() && task !in nodes && task.next == null && task.prev == null
      modifies this, nodes, task
      ensures Valid() && nodes == old(nodes) + [task] && stale == old(stale)
      ensures current == if old(nodes) == [] then task else old(current)
      ensures forall t :: t in old(nodes) ==> t.prev == old(t.prev)
    {
      ghost var was := nodes;
      forall i | 0 <= i < |nodes| ensures NextLink(i) && PrevLink(i) {
      }
      if head == null {
        head := task;
        tail := task;
        current := task;
      } else {
        tail.next := task;
        task.prev := tail;
        tail := task;
      }
      nodes := nodes + [task];
      forall i | 0 <= i < |nodes| ensures NextLink(i) && PrevLink(i) {
        if i < |was| {
          assert nodes[i] == was[i] && nodes[..i + 1] == was[..i + 1];
          assert nodes[i].prev == old(nodes[i].prev);
          assert i + 1 < |was| ==> nodes[i].next == old(nodes[i].next);
          assert old(PrevLink(i)) && old(NextLink(i));
        }
      }
    }

    /** task_get_next: round the list in order. */
    method GetNext() returns (task: Task?)
      requires current != null
      ensures task == if current.next == null then head else current.next
      ensures Valid() ==> forall i :: 0 <= i < |nodes| && current == nodes[i] ==> task == nodes[NextIndex(i, |nodes|)]
    {
      task := if current.next == null then head else current.next;
      if Valid() {
        forall i | 0 <= i < |nodes| && current == nodes[i] ensures task == nodes[NextIndex(i, |nodes|)] {
          assert NextLink(i);
        }
      }
    }

    /** Between the two states the i-th task was unlinked: its predecessor by the prev
        link now leads to its successor, and no other next link changed. */
    twostate predicate Unlinked(was: seq<Task>, i: nat, before: Task?, after: Task?)
      requires i < |was|
      reads this, was, if before == null then {} else {before}
    {
      && nodes == Without(was, i)
      && head == (if i == 0 then after else old(head))
      && (before != null ==> before.next == after)
      && forall t :: t in was && t != before ==> t.next == old(t.next)
    }

    twostate predicate Removable(was: seq<Task>, i: nat, before: Task?)
      requires i < |was|
    {
      was[i] !in old(stale) || (i == 0 && before !in was)
    }

    twostate lemma KeepsNext(i: nat)
      requires old(Valid()) && i < |old(nodes)| && Unlinked(old(nodes), i, old(nodes[i].prev), old(nodes[i].next))
      requires Removable(old(nodes), i, old(nodes[i].prev))
      ensures Linked()
    {
      var was, before, after := old(nodes), old(nodes[i].prev), old(nodes[i].next);
      assert old(NextLink(i)) && old(PrevLink(i));
      forall p | 0 <= p < |nodes| ensures NextLink(p) {
        var q := if p < i then p else p + 1;
        assert nodes[p] == was[q] && old(NextLink(q));
        assert was[q] == before ==> q + 1 == i && was[q].next == after;
      }
    }

    twostate lemma BreaksNext(i: nat)
      requires old(Valid()) && i < |old(nodes)| && Unlinked(old(nodes), i, old(nodes[i].prev), old(nodes[i].next))
      requires !Removable(old(nodes), i, old(nodes[i].prev))
      ensures !Linked()
    {
      var was, before := old(nodes), old(nodes[i].prev);
      assert old(NextLink(i)) && old(PrevLink(i));
      if i > 0 {
        assert nodes[i - 1] == was[i - 1] && old(NextLink(i - 1));
        assert !NextLink(i - 1);
      } else {
        var j :| 0 <= j < |was| && was[j] == before;
        assert nodes[j - 1] == before && nodes[0] == was[1];
        assert !NextLink(j - 1);
      }
    }

    /** The prev links after the i-th task was unlinked, and its successor's repaired or not. */
    twostate lemma KeepsPrev(i: nat)
      requires old(Valid()) && i < |old(nodes)| && Unlinked(old(nodes), i, old(nodes[i].prev), old(nodes[i].next))
      requires Removable(old(nodes), i, old(nodes[i].prev))
      requires stale == old(stale) - {old(nodes[i])}
                        + (if i + 1 < |old(nodes)| && !repaired then {old(nodes)[i + 1]} else {})
      requires forall t :: t in old(nodes) && !(repaired && t == old(nodes[i].next)) ==> t.prev == old(t.prev)
      requires repaired && old(nodes[i].next) != null ==> old(nodes[i].next).prev == old(nodes[i].prev)
      ensures PrevLinks()
    {
      var was, after := old(nodes), old(nodes[i].next);
      assert old(NextLink(i)) && old(PrevLink(i));
      forall p | 0 <= p < |nodes| ensures PrevLink(p) {
        var q := if p < i then p else p + 1;
        assert nodes[p] == was[q] && old(PrevLink(q));
        if q == i + 1 {
          assert was[q] == after;
        }
      }
    }

    /** Exactly the removable tasks leave a list that is linked, and then its prev links
        are as they should be. */
    twostate lemma UnlinkedExact(i: nat)
      requires old(Valid()) && i < |old(nodes)| && Unlinked(old(nodes), i, old(nodes[i].prev), old(nodes[i].next))
      requires stale == old(stale) - {old(nodes[i])}
                        + (if i + 1 < |old(nodes)| && !repaired then {old(nodes)[i + 1]} else {})
      requires forall t :: t in old(nodes) && !(repaired && t == old(nodes[i].next)) ==> t.prev == old(t.prev)
      requires repaired && old(nodes[i].next) != null ==> old(nodes[i].next).prev == old(nodes[i].prev)
      ensures Linked() <==> Removable(old(nodes), i, old(nodes[i].prev))
      ensures Linked() ==> PrevLinks()
    {
      hide Linked, PrevLinks, Removable, Unlinked;
      if Removable(old(nodes), i, old(nodes[i].prev)) {
        KeepsNext(i);
        KeepsPrev(i);
      } else {
        BreaksNext(i);
      }
    }

    /** task_list_remove of the i-th task. The list stays right if and only if the task's
        prev link was right, or the task was the head and its link leads out of the list;
        as written, the successor's prev link is wrong from then on. */
    method Remove(task: Task, ghost i: nat)
      requires Valid() && i < |nodes| && nodes[i] == task
      modifies this, nodes, if task.prev == null then {} else {task.prev}
      ensures nodes == Without(old(nodes), i)
      ensures stale == old(stale) - {task} + (if i + 1 < |old(nodes)| && !repaired then {old(nodes)[i + 1]} else {})
      ensures Valid() <==> Linked()
      ensures Linked() <==> task !in old(stale) || (i == 0 && old(task.prev) !in old(nodes))
      ensures task != old(current) ==> current == old(current)
      ensures Valid() && task == old(current) ==>
        current == if nodes == [] then null else if i < |nodes| then nodes[i] else nodes[0]
      ensures !repaired ==> forall t :: t in old(nodes) ==> t.prev == old(t.prev)
    {
      hide Linked, PrevLinks, NextLink, PrevLink, Distinct, Without;
      ghost var was := nodes;
      WithoutIs(was, i);
      LinksOf(i);
      if task.prev != null {
        task.prev.next := task.next;
      }
      if repaired && task.next != null {
        task.next.prev := task.prev;
      }
      if task == head {
        head := task.next;
      }
      if task == tail {
        tail := task.prev;
      }
      nodes := Without(nodes, i);
      stale := stale - {task} + (if i + 1 < |was| && !repaired then {was[i + 1]} else {});
      if task == current {
        current := if current.next == null then head else current.next;
      }
      UnlinkedExact(i);
    }

    /** A prev link that is right leads to the predecessor. */
    lemma PrevOf(i: nat)
      requires Valid() && i + 1 < |nodes| && nodes[i + 1] !in stale
      ensures nodes[i + 1].prev == nodes[i]
    {
      assert PrevLink(i + 1);
    }

    lemma LinksOf(i: nat)
      requires Valid() && i < |nodes|
      ensures nodes[i].prev != nodes[i] && nodes[i].next != nodes[i]
      ensures head == nodes[0]
      ensures nodes[i].next == if i + 1 < |nodes| then nodes[i + 1] else null
      ensures forall j :: 0 <= j < |nodes| && j != i ==> nodes[j] != nodes[i]
      ensures repaired ==> nodes[i].prev == if i == 0 then null else nodes[i - 1]
      ensures nodes[i] !in stale ==> nodes[i].prev == if i == 0 then null else nodes[i - 1]
    {
      assert NextLink(i) && PrevLink(i);
    }
  }

  // ---- going round ----

  function NextIndex(i: nat, n: nat): nat {
    if i + 1 < n then i + 1 else 0
  }

  /** k steps of task_get_next from index i. */
  function IndexAfter(i: nat, k: nat, n: nat): (r: nat)
    requires i < n
    ensures r < n
  {
    if k == 0 then i else NextIndex(IndexAfter(i, k - 1, n), n)
  }

  lemma {:induction false} IndexAfterIs(i: nat, k: nat, n: nat)
    requires i < n && k <= n
    ensures IndexAfter(i, k, n) == if i + k < n then i + k else i + k - n
  {
    if k > 0 { IndexAfterIs(i, k - 1, n); }
  }

  lemma Rotation(nodes: seq<Task>, i: nat, visited: seq<Task>)
    requires i < |nodes| && Distinct(nodes) && |visited| == |nodes|
    requires forall j :: 0 <= j < |nodes| ==> visited[j] == nodes[IndexAfter(i, j, |nodes|)]
    ensures visited == nodes[i..] + nodes[..i]
    ensures Distinct(visited) && forall t :: t in nodes <==> t in visited
  {
    var n := |nodes|;
    forall j | 0 <= j < n ensures visited[j] == nodes[if i + j < n then i + j else i + j - n] {
      IndexAfterIs(i, j, n);
    }
    assert visited == nodes[i..] + nodes[..i];
    assert nodes == nodes[..i] + nodes[i..];
  }

  lemma BackAtStart(i: nat, k: nat, n: nat)
    requires i < n && 1 <= k <= n
    ensures IndexAfter(i, k, n) == i <==> k == n
  {
    IndexAfterIs(i, k, n);
  }

  /** One cycle visits every task exactly once, in order, and returns to the start. */
  method Cycle(list: List, ghost i: nat) returns (visited: seq<Task>)
    requires list.Valid() && i < |list.nodes| && list.current == list.nodes[i]
    modifies list`current
    ensures list.Valid() && list.current == old(list.current)
    ensures visited == list.nodes[i..] + list.nodes[..i]
    ensures Distinct(visited) && forall t :: t in list.nodes <==> t in visited
  {
    hide IndexAfter;
    var start := list.current;
    visited := [];
    ghost var n := |list.nodes|;
    assert IndexAfter(i, 0, n) == i by { IndexAfterIs(i, 0, n); }
    var more := true;
    while more
      invariant |visited| <= n && list.Valid()
      invariant forall j :: 0 <= j < |visited| ==> visited[j] == list.nodes[IndexAfter(i, j, n)]
      invariant list.current == list.nodes[IndexAfter(i, |visited|, n)]
      invariant more ==> |visited| < n
      invariant !more ==> |visited| == n && list.current == start
      decreases n - |visited|
    {
      ghost var k := |visited|;
      visited := visited + [list.current];
      var task := list.GetNext();
      assert task == list.nodes[IndexAfter(i, k + 1, n)] by { NextAfter(i, k, n); }
      BackAtStart(i, k + 1, n);
      assert task == start <==> k + 1 == n by {
        assert list.Linked() && start == list.nodes[i];
      }
      assert task in list.nodes;
      list.current := task;
      KeptValid(list);
      more := task != start;
    }
    Rotation(list.nodes, i, visited);
  }

  /** Moving current along the list keeps it right. */
  twostate lemma KeptValid(list: List)
    requires old(list.Valid()) && list.nodes == old(list.nodes) && list.nodes != []
    requires forall t :: t in old(list.nodes) ==> t.next == old(t.next) && t.prev == old(t.prev)
    requires list.head == old(list.head) && list.tail == old(list.tail) && list.stale == old(list.stale)
    requires list.current in list.nodes
    ensures list.Valid()
  {
    forall i | 0 <= i < |list.nodes| ensures list.NextLink(i) && list.PrevLink(i) {
      assert old(list.NextLink(i)) && old(list.PrevLink(i));
    }
  }

  lemma NextAfter(i: nat, k: nat, n: nat)
    requires i < n
    ensures IndexAfter(i, k + 1, n) == NextIndex(IndexAfter(i, k, n), n)
  {
  }

  /** As written, removing a task and then its successor leaves the successor in the list. */
  method RemoveTwoBreaks(list: List, ghost i: nat, first: Task, second: Task)
    requires list.Valid() && !list.repaired && 0 < i && i + 1 < |list.nodes| && list.stale == {}
    requires list.nodes[i] == first && list.nodes[i + 1] == second
    modifies list, list.nodes
    ensures !list.Linked()
  {
    assert list.PrevLink(i) && list.PrevLink(i + 1);
    list.Remove(first, i);
    list.Remove(second, i);
  }

  // ---- whole runs ----

  datatype Change = Add(task: Task) | Drop(task: Task)

  ghost function IndexOf(s: seq<Task>, t: Task): (i: nat)
    requires t in s
    ensures i < |s| && s[i] == t
  {
    var i: nat :| i < |s| && s[i] == t;
    i
  }

  ghost function Added(changes: seq<Change>): set<Task> {
    if changes == [] then {}
    else (if changes[0].Add? then {changes[0].task} else {}) + Added(changes[1..])
  }

  /** A task is added at most once, and only a task in the list is dropped. */
  ghost predicate Legal(nodes: seq<Task>, changes: seq<Change>)
    decreases |changes|
  {
    changes == [] ||
    match changes[0]
    case Add(t) => t !in Added(changes[1..]) && Legal(nodes + [t], changes[1..])
    case Drop(t) => t in nodes && Legal(Without(nodes, IndexOf(nodes, t)), changes[1..])
  }

  /** The order of the tasks after the changes. */
  ghost function Order(nodes: seq<Task>, changes: seq<Change>): seq<Task>
    requires Legal(nodes, changes)
    decreases |changes|
  {
    if changes == [] then nodes
    else
      match changes[0]
      case Add(t) => Order(nodes + [t], changes[1..])
      case Drop(t) => Order(Without(nodes, IndexOf(nodes, t)), changes[1..])
  }

  /** Tasks that may still be added: not in the list, and without links. */
  ghost predicate New(nodes: seq<Task>, added: set<Task>)
    reads added
  {
    forall t :: t in added ==> t !in nodes && t.next == null && t.prev == null
  }

  /** The tasks with a wrong prev link after t was dropped. */
  ghost function StaleAfter(repaired: bool, nodes: seq<Task>, stale: set<Task>, t: Task): set<Task>
    requires t in nodes
  {
    var i := IndexOf(nodes, t);
    stale - {t} + (if i + 1 < |nodes| && !repaired then {nodes[i + 1]} else {})
  }

  /** The next change is an addition, or drops a task that has a right prev link or is
      the head. */
  ghost predicate RightNow(nodes: seq<Task>, stale: set<Task>, change: Change) {
    change.Drop? ==> change.task !in stale || (nodes != [] && nodes[0] == change.task)
  }

  /** Every change in a run is right when its turn comes. */
  ghost predicate AllRight(repaired: bool, nodes: seq<Task>, stale: set<Task>, changes: seq<Change>)
    requires Legal(nodes, changes)
    decreases |changes|
  {
    changes == [] || (RightNow(nodes, stale, changes[0]) && RestRight(repaired, nodes, stale, changes))
  }

  ghost predicate RestRight(repaired: bool, nodes: seq<Task>, stale: set<Task>, changes: seq<Change>)
    requires changes != [] && Legal(nodes, changes)
    decreases |changes|, 0
  {
    match changes[0]
    case Add(t) => AllRight(repaired, nodes + [t], stale, changes[1..])
    case Drop(t) =>
      AllRight(repaired, Without(nodes, IndexOf(nodes, t)), StaleAfter(repaired, nodes, stale, t), changes[1..])
  }

  /** Every change before the last is right. */
  ghost predicate RightBefore(repaired: bool, nodes: seq<Task>, stale: set<Task>, changes: seq<Change>)
    requires Legal(nodes, changes)
    decreases |changes|
  {
    |changes| <= 1 ||
    (RightNow(nodes, stale, changes[0]) &&
     match changes[0]
     case Add(t) => RightBefore(repaired, nodes + [t], stale, changes[1..])
     case Drop(t) =>
       RightBefore(repaired, Without(nodes, IndexOf(nodes, t)), StaleAfter(repaired, nodes, stale, t), changes[1..]))
  }

  /** Wrong prev links lead to tasks that are gone: neither in the list nor to be added. */
  ghost predicate Gone(list: List, gone: set<Task>, added: set<Task>)
    reads list, list.stale
  {
    && (forall t :: t in list.stale ==> t.prev != null && t.prev in gone)
    && (forall t :: t in gone ==> t !in list.nodes && t !in added)
  }

  /** A run of additions and removals keeps the list right if and only if every dropped
      task has a right prev link or is the head when its turn comes; then the list holds
      the tasks in the order that the run leaves. The run goes on to the first change that
      is not right. With the missing line every run is right. */
  method RunChanges(list: List, changes: seq<Change>, ghost added: set<Task>, ghost gone: set<Task>)
    requires list.Valid() && Legal(list.nodes, changes) && RightBefore(list.repaired, list.nodes, list.stale, changes)
    requires added == Added(changes) && New(list.nodes, added) && Gone(list, gone, added)
    modifies list, list.nodes, added, gone
    ensures list.Valid() <==> AllRight(list.repaired, old(list.nodes), old(list.stale), changes)
    ensures list.Valid() ==> list.nodes == Order(old(list.nodes), changes)
    ensures list.repaired ==> list.Valid()
    decreases |changes|
  {
    hide List.PrevLinks, List.NextLink, List.PrevLink, List.Linked, Distinct;
    if changes != [] {
      ghost var was := list.nodes;
      match changes[0]
      case Add(t) =>
        list.Append(t);
        assert forall x :: x in list.nodes ==> x in was || x == t;
        StaleInside(list);
        RunChanges(list, changes[1..], added - {t}, gone);
      case Drop(t) =>
        DropOne(list, t, added, gone);
        if |changes| > 1 {
          RunChanges(list, changes[1..], added, gone + {t});
        } else {
          LastChange(list.repaired, was, old(list.stale), changes);
        }
    }
  }

  lemma LastChange(repaired: bool, nodes: seq<Task>, stale: set<Task>, changes: seq<Change>)
    requires |changes| == 1 && Legal(nodes, changes)
    ensures AllRight(repaired, nodes, stale, changes) <==> RightNow(nodes, stale, changes[0])
    ensures changes[0].Drop? ==> Order(nodes, changes) == Without(nodes, IndexOf(nodes, changes[0].task))
  {
    assert changes[1..] == [];
    assert RestRight(repaired, nodes, stale, changes);
  }

  lemma StaleInside(list: List)
    requires list.Valid()
    ensures forall t :: t in list.stale ==> t in list.nodes
  {
  }

  /** One removal in a run. */
  method DropOne(list: List, t: Task, ghost added: set<Task>, ghost gone: set<Task>)
    requires list.Valid() && t in list.nodes && New(list.nodes, added) && Gone(list, gone, added)
    modifies list, list.nodes, gone
    ensures list.Valid() <==> RightNow(old(list.nodes), old(list.stale), Drop(t))
    ensures list.nodes == Without(old(list.nodes), IndexOf(old(list.nodes), t))
    ensures list.stale == StaleAfter(list.repaired, old(list.nodes), old(list.stale), t)
    ensures list.Valid() ==> New(list.nodes, added) && Gone(list, gone + {t}, added)
  {
    hide List.PrevLinks, List.NextLink, List.PrevLink, List.Linked;
    ghost var i := IndexOf(list.nodes, t);
    ghost var was := list.nodes;
    list.LinksOf(i);
    StaleInside(list);
    WithoutIs(was, i);
    if i + 1 < |was| && was[i + 1] !in list.stale { list.PrevOf(i); }
    list.Remove(t, i);
    assert forall x :: x in list.nodes ==> x in was && x != t;
  }
}
