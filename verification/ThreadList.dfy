/** linkedlist.c: the server's list of connection threads, changed in place by whoever
    holds the list mutex. The heap records which nodes have been allocated and not freed. */
module ThreadList {
  import opened Bytes

  /** thread_data_t, without the peer address. */
  datatype ThreadData = ThreadData(fileDescriptor: int, threadId: int, completion: bool)

  class Node {
    var next: Node?
    var data: ThreadData

    constructor (data: ThreadData)
      ensures this.data == data
    {
      this.data := data;
    }
  }

  class NodeHeap {
    ghost var live: set<Node>

    constructor ()
      ensures live == {}
    {
      live := {};
    }

    /** malloc and the assignment of the data. */
    method Malloc(data: ThreadData) returns (n: Node)
      modifies this
      ensures fresh(n) && n !in old(live) && n.data == data && live == old(live) + {n}
    {
      n := new Node(data);
      live := live + {n};
    }

    /** free; freeing a node that is not live is a contract violation. */
    method Free(n: Node)
      requires n in live
      modifies this
      ensures live == old(live) - {n}
    {
      live := live - {n};
    }
  }

  // ---- what the operations mean on a sequence of records ----

  /** The first record of a thread, by position; the length when there is none. */
  function FirstOf(s: seq<ThreadData>, id: int): (k: nat)
    ensures k <= |s|
    ensures k < |s| ==> s[k].threadId == id
    ensures forall i :: 0 <= i < k ==> s[i].threadId != id
  {
    if s == [] || s[0].threadId == id then 0 else 1 + FirstOf(s[1..], id)
  }

  function Removed(s: seq<ThreadData>, id: int): seq<ThreadData> {
    var k := FirstOf(s, id);
    if k < |s| then s[..k] + s[k + 1..] else s
  }

  function WithStatus(s: seq<ThreadData>, id: int, status: bool): seq<ThreadData> {
    var k := FirstOf(s, id);
    if k < |s| then s[k := s[k].(completion := status)] else s
  }

  function Found(s: seq<ThreadData>, id: int): Option<ThreadData> {
    var k := FirstOf(s, id);
    if k < |s| then Some(s[k]) else None
  }

  /** Insertion is undone by removing the inserted thread, and shadows older records of it. */
  lemma RemoveUndoesInsert(s: seq<ThreadData>, d: ThreadData)
    ensures Removed([d] + s, d.threadId) == s
    ensures Found([d] + s, d.threadId) == Some(d)
    ensures WithStatus([d] + s, d.threadId, true) == [d.(completion := true)] + s
  {
  }

  lemma {:induction false} RemovedStep(s: seq<ThreadData>, id: int)
    requires s != []
    ensures Removed(s, id) == if s[0].threadId == id then s[1..] else [s[0]] + Removed(s[1..], id)
  {
    var k := FirstOf(s[1..], id);
    if s[0].threadId != id && k + 1 < |s| {
      CutBehind(s, k);
    }
  }

  lemma {:induction false} CutBehind(s: seq<ThreadData>, k: nat)
    requires k + 1 < |s|
    ensures s[..k + 1] + s[k + 2..] == [s[0]] + (s[1..][..k] + s[1..][k + 1..])
  {
  }

  lemma {:induction false} FoundStep(d: ThreadData, s: seq<ThreadData>, id: int)
    ensures Found([d] + s, id) == if d.threadId == id then Some(d) else Found(s, id)
  {
  }

  /** Removing one thread leaves what is found for every other thread alone. */
  lemma {:induction false} RemovalSparesOthers(s: seq<ThreadData>, id: int, other: int)
    requires id != other
    ensures Found(Removed(s, id), other) == Found(s, other)
  {
    if s != [] {
      RemovedStep(s, id);
      assert s == [s[0]] + s[1..];
      FoundStep(s[0], s[1..], other);
      if s[0].threadId != id {
        RemovalSparesOthers(s[1..], id, other);
        FoundStep(s[0], Removed(s[1..], id), other);
      }
    }
  }

  /** Updating one thread leaves what is found for every other thread alone. */
  lemma UpdateSparesOthers(s: seq<ThreadData>, id: int, other: int, status: bool)
    requires id != other
    ensures Found(WithStatus(s, id, status), other) == Found(s, other)
  {
    SameIdsSameFirst(s, WithStatus(s, id, status), other);
  }

  lemma {:induction false} SameIdsSameFirst(s: seq<ThreadData>, t: seq<ThreadData>, id: int)
    requires |s| == |t| && forall i :: 0 <= i < |s| ==> s[i].threadId == t[i].threadId
    ensures FirstOf(s, id) == FirstOf(t, id)
  {
  }

  /** After a status update the thread's record carries the status. */
  lemma StatusIsSet(s: seq<ThreadData>, id: int, status: bool)
    ensures Found(WithStatus(s, id, status), id) ==
            match Found(s, id) case None => None case Some(d) => Some(d.(completion := status))
  {
    var (k, w) := (FirstOf(s, id), WithStatus(s, id, status));
    if k < |s| {
      assert w[k].threadId == id;
      assert forall i :: 0 <= i < k ==> w[i].threadId != id;
    }
  }

  // ---- the list ----

  class LinkedList {
    var head: Node?
    const heap: NodeHeap
    /** The nodes of the list from the head on, and what they record. */
    ghost var nodes: seq<Node>
    ghost var records: seq<ThreadData>

    ghost predicate Linked(i: nat)
      requires i < |nodes| == |records|
      reads `nodes, `records, nodes[i]
    {
      nodes[i].next == (if i + 1 < |nodes| then nodes[i + 1] else null) && nodes[i].data == records[i]
    }

    /** Acyclic, and every node live. */
    ghost predicate Valid()
      reads `head, `nodes, `records, heap`live, nodes
    {
      && |records| == |nodes|
      && (forall i, j :: 0 <= i < j < |nodes| ==> nodes[i] != nodes[j])
      && head == (if nodes == [] then null else nodes[0])
      && (forall i {:trigger Linked(i)} :: 0 <= i < |nodes| ==> Linked(i))
      && (forall i :: 0 <= i < |nodes| ==> nodes[i] in heap.live)
    }

    /** init_linked_list */
    constructor (heap: NodeHeap)
      ensures Valid() && records == [] && this.heap == heap
    {
      head := null;
      this.heap := heap;
      nodes := [];
      records := [];
    }

    /** insert_element_to_linked_list_no_mutex */
    method InsertNoMutex(data: ThreadData)
      requires Valid()
      modifies this`head, this`nodes, this`records, heap
      ensures Valid() && records == [data] + old(records)
      ensures |nodes| == |old(nodes)| + 1 && fresh(nodes[0]) && nodes[1..] == old(nodes)
      ensures heap.live == old(heap.live) + {nodes[0]}
    {
      var newHead := heap.Malloc(data);
      var oldHead := head;
      head := newHead;
      newHead.next := oldHead;
      nodes, records := [newHead] + nodes, [data] + records;
      forall i | 0 <= i < |nodes|
        ensures Linked(i)
      {
        assert i > 0 ==> nodes[i] == old(nodes)[i - 1] && old(Linked(i - 1));
      }
    }

    /** The search loop of lines 240-254: the first node of the thread, or NULL. */
    method Search(threadId: int) returns (found: Node?)
      requires Valid()
      ensures var k := FirstOf(records, threadId);
              found == if k < |nodes| then nodes[k] else null
    {
      ghost var k := FirstOf(records, threadId);
      ghost var n := 0;
      found := head;
      while found != null
        invariant 0 <= n <= k <= |nodes| && found == if n < |nodes| then nodes[n] else null
        decreases |nodes| - n
      {
        assert Linked(n) && found in heap.live;
        if found.data.threadId == threadId {
          return;
        }
        found := found.next;
        n := n + 1;
      }
    }

    /** set_thread_status_no_mutex */
    method SetStatusNoMutex(threadId: int, status: bool)
      requires Valid()
      modifies this`records, nodes
      ensures Valid() && nodes == old(nodes)
      ensures records == WithStatus(old(records), threadId, status)
    {
      var temp := Search(threadId);
      if temp != null {
        ghost var k := FirstOf(records, threadId);
        assert Linked(k);
        temp.data := temp.data.(completion := status);
        records := WithStatus(records, threadId, status);
        forall i | 0 <= i < |nodes|
          ensures Linked(i)
        {
          assert old(Linked(i));
        }
      }
    }

    /** get_thread_data_no_mutex: a copy of the first record, owned by the caller. */
    method GetNoMutex(threadId: int) returns (copy: Node?)
      requires Valid()
      modifies heap
      ensures Valid()
      ensures Found(records, threadId) == if copy == null then None else Some(copy.data)
      ensures copy == null ==> heap.live == old(heap.live)
      ensures copy != null ==> fresh(copy) && copy.next == null && heap.live == old(heap.live) + {copy}
    {
      var temp := Search(threadId);
      copy := null;
      if temp != null {
        assert Linked(FirstOf(records, threadId));
        var returnData := heap.Malloc(temp.data);
        returnData.next := null;
        copy := returnData;
      }
      forall i | 0 <= i < |nodes|
        ensures Linked(i)
      {
        assert old(Linked(i));
      }
    }

    /** The search loop of remove_element_from_linked_list_no_mutex, which keeps the node
        before the one it looks at. */
    method SearchWithPrev(threadId: int) returns (prev: Node?, temp: Node?)
      requires Valid()
      ensures var k := FirstOf(records, threadId);
              if k < |nodes| then temp == nodes[k] && prev == (if k == 0 then temp else nodes[k - 1])
              else temp == null
    {
      ghost var k := FirstOf(records, threadId);
      ghost var n := 0;
      temp := head;
      prev := temp;
      while temp != null
        invariant 0 <= n <= k <= |nodes| && temp == if n < |nodes| then nodes[n] else null
        invariant prev == if n == 0 then temp else nodes[n - 1]
        decreases |nodes| - n
      {
        assert Linked(n) && temp in heap.live;
        if temp.data.threadId == threadId {
          return;
        }
        prev := temp;
        temp := temp.next;
        n := n + 1;
      }
    }

    /** Lines 92-99: take node `n` out of the chain. */
    method Unlink(prev: Node, temp: Node, ghost n: nat)
      requires Valid() && n < |nodes| && temp == nodes[n]
      requires prev == if n == 0 then temp else nodes[n - 1]
      modifies this`head, this`nodes, this`records, nodes
      ensures nodes == old(nodes)[..n] + old(nodes)[n + 1..] && Valid() && temp !in nodes
      ensures records == old(records)[..n] + old(records)[n + 1..]
    {
      assert Linked(n);
      if prev == temp {
        head := temp.next;
      } else {
        prev.next := temp.next;
      }
      nodes, records := nodes[..n] + nodes[n + 1..], records[..n] + records[n + 1..];
      forall i | 0 <= i < |nodes|
        ensures Linked(i)
      {
        assert old(Linked(if i < n then i else i + 1));
      }
    }

    /** remove_element_from_linked_list_no_mutex: unlink the first node of the thread and free it. */
    method RemoveNoMutex(threadId: int)
      requires Valid()
      modifies this`head, this`nodes, this`records, heap, nodes
      ensures Valid() && records == Removed(old(records), threadId)
      ensures var k := FirstOf(old(records), threadId);
              if k < |old(nodes)|
              then nodes == old(nodes)[..k] + old(nodes)[k + 1..] && heap.live == old(heap.live) - {old(nodes)[k]}
              else nodes == old(nodes) && heap.live == old(heap.live)
    {
      var prev, temp := SearchWithPrev(threadId);
      if temp != null {
        ghost var k := FirstOf(records, threadId);
        Unlink(prev, temp, k);
        heap.Free(temp);
      }
    }

    /** free_linked_list, without the list object itself: every node once, each read before
        it is freed. */
    method FreeAll()
      requires Valid()
      modifies heap
      ensures heap.live == old(heap.live) - set n | n in nodes
    {
      var it := head;
      ghost var n := 0;
      while it != null
        invariant 0 <= n <= |nodes| && it == if n < |nodes| then nodes[n] else null
        invariant heap.live == old(heap.live) - set i | 0 <= i < n :: nodes[i]
        decreases |nodes| - n
      {
        assert Linked(n) && it in heap.live;
        var temp := it.next;
        heap.Free(it);
        it := temp;
        n := n + 1;
      }
    }
  }

  // ---- whole runs ----

  datatype Op = Insert(d: ThreadData) | Remove(id: int) | SetStatus(id: int, status: bool) | Get(id: int)

  function Apply(s: seq<ThreadData>, op: Op): seq<ThreadData> {
    match op
    case Insert(d) => [d] + s
    case Remove(id) => Removed(s, id)
    case SetStatus(id, status) => WithStatus(s, id, status)
    case Get(_) => s
  }

  function ApplyAll(s: seq<ThreadData>, ops: seq<Op>): seq<ThreadData> {
    if ops == [] then s else Apply(ApplyAll(s, ops[..|ops| - 1]), ops[|ops| - 1])
  }

  /** What a lookup finds. */
  function Handed(s: seq<ThreadData>, op: Op): seq<ThreadData> {
    if op.Get? && Found(s, op.id).Some? then [Found(s, op.id).value] else []
  }

  /** What the lookups of a run find, in order. */
  function HandedOut(s: seq<ThreadData>, ops: seq<Op>): seq<ThreadData> {
    if ops == [] then []
    else
      var n := |ops| - 1;
      HandedOut(s, ops[..n]) + Handed(ApplyAll(s, ops[..n]), ops[n])
  }

  /** The thread an operation is about. */
  function About(op: Op): int {
    match op
    case Insert(d) => d.threadId
    case Remove(id) => id
    case SetStatus(id, _) => id
    case Get(id) => id
  }

  /** What the last operation of a run leaves to be found: for its own thread the new record,
      the new status, or one record less; for every other thread what was there before. */
  lemma {:induction false} LastOperationDecides(s: seq<ThreadData>, ops: seq<Op>, op: Op)
    ensures ApplyAll(s, []) == s
    ensures var (before, after, id) := (ApplyAll(s, ops), ApplyAll(s, ops + [op]), About(op));
            && (op.Insert? ==> Found(after, id) == Some(op.d) && after[1..] == before)
            && (op.SetStatus? ==>
                  && |after| == |before|
                  && (Found(before, id) == None ==> Found(after, id) == None)
                  && (Found(before, id).Some? ==>
                        && Found(after, id).Some?
                        && var (d, d') := (Found(before, id).value, Found(after, id).value);
                        && d'.completion == op.status
                        && d'.fileDescriptor == d.fileDescriptor && d'.threadId == d.threadId))
            && (op.Remove? ==>
                  match Found(before, id) case None => after == before case Some(d) => OneLess(before, after, d))
            && (op.Get? ==> after == before)
            && (forall other :: other != id ==> Found(after, other) == Found(before, other))
  {
    var (before, after, id) := (ApplyAll(s, ops), ApplyAll(s, ops + [op]), About(op));
    assert (ops + [op])[..|ops|] == ops;
    assert after == Apply(before, op);
    forall other | other != id
      ensures Found(after, other) == Found(before, other)
    {
      OthersKeepTheirs(before, op, other);
    }
    if op.SetStatus? {
      StatusIsSet(before, id, op.status);
    } else if op.Remove? && FirstOf(before, id) < |before| {
      CutOne(before, FirstOf(before, id));
    }
  }

  lemma {:induction false} OthersKeepTheirs(s: seq<ThreadData>, op: Op, other: int)
    requires other != About(op)
    ensures Found(Apply(s, op), other) == Found(s, other)
  {
    match op
    case Insert(d) => FoundStep(d, s, other);
    case Remove(id) => RemovalSparesOthers(s, id, other);
    case SetStatus(id, status) => UpdateSparesOthers(s, id, other, status);
    case Get(_) =>
  }

  /** Put back somewhere, the record found gives the old list. */
  ghost predicate OneLess(s: seq<ThreadData>, s': seq<ThreadData>, d: ThreadData) {
    exists k :: 0 <= k <= |s'| && s == s'[..k] + [d] + s'[k..]
  }

  lemma {:induction false} CutOne(s: seq<ThreadData>, k: nat)
    requires k < |s|
    ensures OneLess(s, s[..k] + s[k + 1..], s[k])
  {
    var s' := s[..k] + s[k + 1..];
    assert s == s'[..k] + [s[k]] + s'[k..];
  }

  /** The live nodes are those of the list, those the caller owned and the copies handed out. */
  ghost predicate Accounted(l: LinkedList, owned: set<Node>, copies: seq<Node>)
    reads l`head, l`nodes, l`records, l.heap`live, l.nodes
  {
    && l.Valid()
    && l.heap.live == (set n | n in l.nodes) + owned + (set n | n in copies)
    && forall n :: n in l.nodes ==> n !in owned && n !in copies
  }

  ghost predicate Carry(nodes: seq<Node>, ds: seq<ThreadData>)
    reads nodes
  {
    |nodes| == |ds| && forall i :: 0 <= i < |nodes| ==> nodes[i].data == ds[i]
  }

  /** One insertion, removal or status update. */
  method Change(l: LinkedList, op: Op, ghost owned: set<Node>, ghost copies: seq<Node>)
    requires Accounted(l, owned, copies) && !op.Get?
    modifies l, l.heap, l.nodes
    ensures Accounted(l, owned, copies) && l.records == Apply(old(l.records), op)
    ensures forall n :: n in l.nodes ==> n in old(l.nodes) || fresh(n)
  {
    match op
    case Insert(d) =>
      l.InsertNoMutex(d);
      assert forall n :: n in l.nodes ==> n == l.nodes[0] || n in l.nodes[1..];
    case Remove(id) =>
      l.RemoveNoMutex(id);
    case SetStatus(id, status) =>
      l.SetStatusNoMutex(id, status);
  }

  /** One operation of a run. */
  method Perform(l: LinkedList, op: Op, ghost owned: set<Node>, copies: seq<Node>, ghost ds: seq<ThreadData>)
    returns (copies': seq<Node>)
    requires Accounted(l, owned, copies) && Carry(copies, ds)
    modifies l, l.heap, l.nodes
    ensures Accounted(l, owned, copies') && Carry(copies', ds + Handed(old(l.records), op))
    ensures l.records == Apply(old(l.records), op)
    ensures forall n :: n in copies' ==> n in copies || fresh(n)
    ensures forall n :: n in l.nodes ==> n in old(l.nodes) || fresh(n)
  {
    copies' := copies;
    if op.Get? {
      var copy := l.GetNoMutex(op.id);
      if copy != null {
        copies' := copies + [copy];
      }
    } else {
      Change(l, op, owned, copies);
    }
  }

  /** Any run of operations by the mutex holder does to the records what the sequence
      operations do, hands out copies of what its lookups find, in order, and keeps live
      exactly the list's nodes and those copies. */
  method Run(l: LinkedList, ops: seq<Op>, ghost owned: set<Node>) returns (copies: seq<Node>)
    requires Accounted(l, owned, [])
    modifies l, l.heap, l.nodes
    ensures Accounted(l, owned, copies) && Carry(copies, HandedOut(old(l.records), ops))
    ensures l.records == ApplyAll(old(l.records), ops)
    ensures forall n :: n in copies ==> fresh(n)
    ensures forall n :: n in l.nodes ==> n in old(l.nodes) || fresh(n)
  {
    if |ops| == 0 {
      return [];
    }
    var before := Run(l, ops[..|ops| - 1], owned);
    copies := Perform(l, ops[|ops| - 1], owned, before, HandedOut(old(l.records), ops[..|ops| - 1]));
  }

  /** From an empty list through any run to free_linked_list: what is left are the copies. */
  method Lifetime(ops: seq<Op>) returns (heap: NodeHeap, copies: seq<Node>)
    ensures heap.live == set n | n in copies
    ensures Carry(copies, HandedOut([], ops))
  {
    heap := new NodeHeap();
    var l := new LinkedList(heap);
    copies := Run(l, ops, {});
    l.FreeAll();
  }
}
