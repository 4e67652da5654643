/**
  Functions scheduled to run from the main loop: a queue of one-shot functions over a list of
  recycled nodes.  Interrupts and the functions themselves schedule further functions while the
  queue is being run.
*/
module Schedule {
  import opened Words

  const SCHEDULED_FN_MAX_COUNT: nat := 32

  /** A callable; what it does is not modelled beyond the scheduling calls it makes. */
  datatype Callable = Callable(id: nat)

  class Node {
    var next: Node?
    var func: Option<Callable>

    constructor ()
      ensures next == null && func.None?
    {
      next, func := null, None;
    }
  }

  predicate Distinct(nodes: seq<Node>) {
    forall i, j :: 0 <= i < j < |nodes| ==> nodes[i] != nodes[j]
  }

  predicate Apart(a: seq<Node>, b: seq<Node>) {
    forall i, j :: 0 <= i < |a| && 0 <= j < |b| ==> a[i] != b[j]
  }

  function After(nodes: seq<Node>, i: nat): Node? {
    if i + 1 < |nodes| then nodes[i + 1] else null
  }

  /** The list that starts at `head` consists of these nodes. */
  ghost predicate Linked(head: Node?, nodes: seq<Node>)
    reads nodes
  {
    && head == (if nodes == [] then null else nodes[0])
    && forall i :: 0 <= i < |nodes| ==> nodes[i].next == After(nodes, i)
  }

  predicate NotIn(n: Node, nodes: seq<Node>) {
    forall i :: 0 <= i < |nodes| ==> nodes[i] != n
  }

  lemma Popped(head: Node, nodes: seq<Node>)
    requires Linked(head, nodes)
    ensures nodes != [] && Linked(nodes[0].next, nodes[1..])
  {
    var rest := nodes[1..];
    forall i | 0 <= i < |rest|
      ensures rest[i].next == After(rest, i)
    {
      assert nodes[i + 1].next == After(nodes, i + 1);
    }
  }

  lemma PushedApart(fn: Node, queue: seq<Node>, free: seq<Node>)
    requires NotIn(fn, queue) && NotIn(fn, free) && Distinct(free) && Apart(queue, free)
    ensures Distinct([fn] + free) && Apart(queue, [fn] + free)
    ensures (forall i :: 0 <= i < |queue| ==> queue[i] != fn) && (forall i :: 0 <= i < |free| ==> free[i] != fn)
  {
  }

  lemma Pushed(fn: Node, head: Node?, nodes: seq<Node>)
    requires Linked(head, nodes) && fn.next == head
    ensures Linked(fn, [fn] + nodes)
  {
    var all := [fn] + nodes;
    forall i | 0 <= i < |all|
      ensures all[i].next == After(all, i)
    {
      if i > 0 {
        assert nodes[i - 1].next == After(nodes, i - 1);
      }
    }
  }

  /** A node linked behind the last one. */
  lemma Appended(head: Node?, nodes: seq<Node>, item: Node)
    requires head == if nodes == [] then item else nodes[0]
    requires forall i :: 0 <= i < |nodes| ==> nodes[i].next == After(nodes + [item], i)
    requires item.next == null
    ensures Linked(head, nodes + [item])
  {
  }

  /** A request to schedule a function, and the answer to it. */
  datatype Asked = Asked(fn: Option<Callable>, granted: bool)

  /** The functions of the requests granted, in order. */
  ghost function Granted(asked: seq<Asked>): seq<Callable> {
    if asked == [] then []
    else
      var a := asked[|asked| - 1];
      Granted(asked[..|asked| - 1]) + if a.granted && a.fn.Some? then [a.fn.value] else []
  }

  lemma {:induction false} GrantedJoin(a: seq<Asked>, b: seq<Asked>)
    ensures Granted(a + b) == Granted(a) + Granted(b)
    decreases |b|
  {
    if b == [] {
      assert a + b == a;
    } else {
      var c := b[..|b| - 1];
      assert (a + b)[..|a + b| - 1] == a + c;
      GrantedJoin(a, c);
    }
  }

  /** While the requests grew from `before` to `now`, the functions accepted grew by exactly those granted. */
  ghost predicate Grew(acceptedBefore: seq<Callable>, accepted: seq<Callable>, before: seq<Asked>, now: seq<Asked>) {
    before <= now && accepted == acceptedBefore + Granted(now[|before|..])
  }

  lemma GrewMeans(p: seq<Callable>, q: seq<Callable>, a: seq<Asked>, b: seq<Asked>, more: seq<Asked>)
    requires Grew(p, q, a, b) && b == a + more
    ensures q == p + Granted(more)
  {
    assert b[|a|..] == more;
  }

  lemma GrewTwice(p: seq<Callable>, q: seq<Callable>, r: seq<Callable>, a: seq<Asked>, b: seq<Asked>, c: seq<Asked>)
    requires Grew(p, q, a, b) && Grew(q, r, b, c)
    ensures Grew(p, r, a, c)
  {
    hide Granted;
    GrantedJoin(b[|a|..], c[|b|..]);
    assert b[|a|..] + c[|b|..] == c[|a|..];
  }

  lemma GrewNot(p: seq<Callable>, a: seq<Asked>)
    ensures Grew(p, p, a, a)
  {
  }

  lemma NobodyAsked(p: seq<Callable>, q: seq<Callable>, a: seq<Asked>)
    ensures Grew(p, q, a, a) ==> q == p
  {
  }

  lemma GrewOne(p: seq<Callable>, a: seq<Asked>, fn: Option<Callable>, granted: bool)
    requires granted ==> fn.Some?
    ensures Grew(p, if granted then p + [fn.value] else p, a, a + [Asked(fn, granted)])
  {
    var more := (a + [Asked(fn, granted)])[|a|..];
    assert more == [Asked(fn, granted)] && more[..0] == [];
  }

  /**
    The functions, and whoever else schedules any: they ask for what they want scheduled, and keep a
    record of the answers and of the calls.
  */
  class Callbacks {
    ghost var ran: seq<Callable>
    ghost var asked: seq<Asked>
    ghost var pending: Option<Option<Callable>>

    constructor ()
      ensures ran == [] && asked == [] && pending.None?
    {
      ran, asked, pending := [], [], None;
    }

    method Run(fn: Callable)
      modifies `ran
      ensures ran == old(ran) + [fn]
    {
      ran := ran + [fn];
    }

    /** What is to be scheduled next. */
    method Request() returns (fn: Option<Callable>)
      modifies `pending
      ensures pending == Some(fn)
    {
      fn := *;
      pending := Some(fn);
    }

    method Answer(granted: bool)
      requires pending.Some?
      modifies `pending, `asked
      ensures pending.None? && asked == old(asked) + [Asked(old(pending).value, granted)]
    {
      asked := asked + [Asked(pending.value, granted)];
      pending := None;
    }
  }

  class Scheduler {
    const callbacks: Callbacks
    // Whether allocation never fails.
    const memory: bool
    var first: Node?
    var last: Node?
    var unused: Node?
    var count: nat
    // The nodes of the queue with their functions, the nodes of the free list, and all nodes.
    ghost var queue: seq<Node>
    ghost var waiting: seq<Callable>
    ghost var free: seq<Node>
    ghost var nodes: set<Node>
    // All functions that were ever accepted, in order.
    ghost var accepted: seq<Callable>
    // Whether the function at the head of the queue has been called and not yet removed.
    ghost var running: bool

    constructor (owners: Callbacks, plenty: bool)
      requires owners.ran == []
      ensures Valid() && fresh(nodes) && queue == [] && accepted == [] && !running
      ensures callbacks == owners && memory == plenty
    {
      callbacks, memory := owners, plenty;
      first, last, unused, count := null, null, null, 0;
      queue, waiting, free, nodes := [], [], [], {};
      accepted, running := [], false;
    }

    /** Queue and free list are well-formed, share no node, and hold all nodes but `extra`. */
    ghost predicate Lists(extra: nat)
      reads this, nodes
    {
      && (forall i :: 0 <= i < |queue| ==> queue[i] in nodes)
      && (forall i :: 0 <= i < |free| ==> free[i] in nodes)
      && Linked(first, queue) && Linked(unused, free)
      && last == (if queue == [] then null else queue[|queue| - 1])
      && Distinct(queue) && Distinct(free) && Apart(queue, free)
      && |queue| + |free| + extra == count <= 32
      && |waiting| == |queue| && (forall i :: 0 <= i < |queue| ==> queue[i].func == Some(waiting[i]))
    }

    /** The functions that were accepted and not yet called. */
    ghost function Ahead(): seq<Callable>
      reads this
    {
      if running && waiting != [] then waiting[1..] else waiting
    }

    /** Every accepted function was called, or waits in the queue, exactly once and in order. */
    ghost predicate Valid()
      reads this, nodes, callbacks`ran
    {
      Lists(0) && (running ==> queue != []) && accepted == callbacks.ran + Ahead()
    }

    /** `get_fn_unsafe`; where memory is short allocation may fail. */
    method GetFn() returns (result: Node?)
      requires Lists(0)
      modifies `unused, `count, `free, `nodes
      ensures fresh(nodes - old(nodes)) && old(nodes) <= nodes
      ensures result == null ==> Lists(0) && free == old(free) && free == []
      ensures result != null ==>
        && Lists(1) && NotIn(result, queue) && NotIn(result, free) && result in nodes
        && (if old(free) != [] then result == old(free)[0] && free == old(free)[1..] else fresh(result) && free == [])
      ensures memory && (old(free) != [] || old(count) < 32) ==> result != null
    {
      result := null;
      if unused != null {
        result := unused;
        Popped(unused, free);
        unused := unused.next;
        free := free[1..];
      } else if count < SCHEDULED_FN_MAX_COUNT {
        var enoughMemory: bool := *;
        if memory || enoughMemory {
          result := new Node();
          count := count + 1;
          nodes := nodes + {result};
        }
      }
    }

    /** `recycle_fn_unsafe`. */
    method RecycleFn(fn: Node)
      requires Lists(1) && NotIn(fn, queue) && NotIn(fn, free) && fn in nodes
      modifies `unused, `free, fn
      ensures Lists(0) && free == [fn] + old(free)
    {
      hide Distinct, Apart, NotIn;
      PushedApart(fn, queue, free);
      fn.func := None;
      fn.next := unused;
      Pushed(fn, unused, free);
      unused := fn;
      free := [fn] + free;
    }

    /** The part of `schedule_function` that fills a node in. */
    method FillIn(item: Node, fn: Callable)
      requires Lists(1) && NotIn(item, queue) && NotIn(item, free)
      modifies item
      ensures Lists(1) && item.func == Some(fn) && item.next == null
    {
      item.func := Some(fn);
      item.next := null;
    }

    /** The part of `schedule_function` that links a node at the end of the queue. */
    method Enqueue(item: Node, ghost fn: Callable)
      requires Lists(1) && NotIn(item, queue) && NotIn(item, free) && item in nodes
      requires item.func == Some(fn) && item.next == null
      modifies `first, `last, `queue, `waiting, nodes
      ensures Lists(0) && queue == old(queue) + [item] && waiting == old(waiting) + [fn]
    {
      if first != null {
        last.next := item;
      } else {
        first := item;
      }
      Appended(first, queue, item);
      last := item;
      queue, waiting := queue + [item], waiting + [fn];
    }

    /** The part of `schedule_function` that puts a node to use. */
    method Accept(item: Node, fn: Callable)
      requires Lists(1) && NotIn(item, queue) && NotIn(item, free) && item in nodes
      requires (running ==> queue != []) && accepted == callbacks.ran + Ahead()
      modifies `first, `last, `queue, `waiting, `accepted, nodes
      ensures Valid() && queue == old(queue) + [item] && accepted == old(accepted) + [fn]
    {
      hide Linked, Distinct, Apart, NotIn;
      FillIn(item, fn);
      Enqueue(item, fn);
      accepted := accepted + [fn];
    }

    /** `schedule_function`, called from the main loop, from scheduled functions and from interrupts. */
    method ScheduleFunction(fn: Option<Callable>) returns (ok: bool)
      requires Valid()
      modifies this, nodes
      ensures Valid() && running == old(running)
      ensures fresh(nodes - old(nodes)) && old(nodes) <= nodes
      ensures ok ==> fn.Some? && accepted == old(accepted) + [fn.value]
      ensures ok ==> |queue| > 0 && old(queue) == queue[..|queue| - 1]
      ensures !ok ==> accepted == old(accepted) && queue == old(queue)
      ensures fn.Some? && !ok ==> old(free) == []
      ensures memory && fn.Some? && (old(free) != [] || old(count) < 32) ==> ok
    {
      hide Linked, Distinct, Apart, NotIn;
      if fn.None? {
        return false;
      }
      var item := GetFn();
      if item == null {
        return false;
      }
      Accept(item, fn.value);
      ok := true;
    }

    /** What runs besides the queue: any number of functions is scheduled on request. */
    method Activity()
      requires Valid()
      modifies this, nodes, callbacks
      ensures Valid() && running == old(running) && callbacks.ran == old(callbacks.ran)
      ensures fresh(nodes - old(nodes)) && old(nodes) <= nodes
      ensures old(queue) <= queue && old(accepted) <= accepted
      ensures Grew(old(accepted), accepted, old(callbacks.asked), callbacks.asked)
    {
      hide Lists, Grew;
      GrewNot(accepted, callbacks.asked);
      var more: nat := *;
      while more > 0
        invariant Valid() && running == old(running) && callbacks.ran == old(callbacks.ran)
        invariant fresh(nodes - old(nodes)) && old(nodes) <= nodes
        invariant old(queue) <= queue && old(accepted) <= accepted
        invariant Grew(old(accepted), accepted, old(callbacks.asked), callbacks.asked)
      {
        ghost var p, a := accepted, callbacks.asked;
        var fn := callbacks.Request();
        var ok := ScheduleFunction(fn);
        callbacks.Answer(ok);
        GrewOne(p, a, fn, ok);
        GrewTwice(old(accepted), p, accepted, old(callbacks.asked), a, callbacks.asked);
        more := more - 1;
      }
    }

    /** The call of the function at the head of the queue. */
    method CallFirst()
      requires Valid() && !running && queue != []
      modifies this, nodes, callbacks
      ensures Valid() && running && callbacks.ran == old(callbacks.ran) + [old(waiting[0])]
      ensures fresh(nodes - old(nodes)) && old(nodes) <= nodes
      ensures old(queue) <= queue && old(accepted) <= accepted
      ensures Grew(old(accepted), accepted, old(callbacks.asked), callbacks.asked)
    {
      hide Linked, Distinct, Apart, Grew;
      callbacks.Run(FirstFn());
      running := true;
      Activity();
    }

    /** The function at the head of the queue. */
    function FirstFn(): (fn: Callable)
      requires Valid() && queue != []
      reads this, nodes, callbacks`ran
      ensures fn == waiting[0]
    {
      first.func.value
    }

    /** Takes the first node out of the queue. */
    method Unlink() returns (fn: Node)
      requires Lists(0) && queue != []
      modifies `first, `last, `queue, `waiting
      ensures Lists(1) && fn == old(queue[0]) && NotIn(fn, queue) && NotIn(fn, free) && fn in nodes
      ensures queue == old(queue[1..]) && waiting == old(waiting[1..])
    {
      fn := first;
      if last == first {
        last := null;
      }
      Popped(first, queue);
      first := first.next;
      queue, waiting := queue[1..], waiting[1..];
    }

    /** The part of `run_scheduled_functions` that removes the function that was called. */
    method RemoveFirst()
      requires Valid() && running
      modifies this, nodes
      ensures Valid() && !running && nodes == old(nodes) && queue == old(queue[1..])
      ensures accepted == old(accepted)
    {
      hide Linked, Distinct, Apart, NotIn;
      var toRecycle := Unlink();
      RecycleFn(toRecycle);
      running := false;
    }

    /** What the nodes at the ends of the queue, and its length, tell. */
    lemma Ends(k: nat)
      requires Valid()
      ensures first == null <==> queue == []
      ensures queue != [] ==> last == queue[|queue| - 1]
      ensures 0 < k <= |queue| ==> (first == queue[k - 1] <==> k == 1)
      ensures callbacks.ran <= accepted && |accepted| == |callbacks.ran| + |queue| - if running then 1 else 0
    {
    }

    /** One round of `run_scheduled_functions`. */
    method RunFirst(stop: Node?, ghost left: nat) returns (done: bool)
      requires Valid() && !running && 0 < left <= |queue| && queue[left - 1] == stop
      modifies this, nodes, callbacks
      ensures Valid() && !running && fresh(nodes - old(nodes)) && old(nodes) <= nodes
      ensures old(accepted) <= accepted && |callbacks.ran| == |old(callbacks.ran)| + 1
      ensures done <==> left == 1
      ensures old(queue[1..]) <= queue && (first == null <==> queue == [])
      ensures Grew(old(accepted), accepted, old(callbacks.asked), callbacks.asked)
    {
      hide Lists, Grew;
      Ends(left);
      done := first == stop;
      CallFirst();
      RemoveFirst();
      var yieldNow: bool := *;
      if yieldNow {
        ghost var p, a := accepted, callbacks.asked;
        Activity();
        GrewTwice(old(accepted), p, accepted, old(callbacks.asked), a, callbacks.asked);
      }
      Ends(left);
    }

    /**
      `run_scheduled_functions`: calls exactly the functions waiting at its start, once each and
      in order, and leaves those scheduled meanwhile waiting; it ends although functions keep
      scheduling.
    */
    method RunScheduledFunctions()
      requires Valid() && !running
      modifies this, nodes, callbacks
      ensures Valid() && !running && fresh(nodes - old(nodes))
      ensures callbacks.ran == old(accepted) <= accepted
      ensures Grew(old(accepted), accepted, old(callbacks.asked), callbacks.asked)
      ensures callbacks.asked == old(callbacks.asked) ==> queue == []
      ensures old(queue) == [] ==> accepted == old(accepted) && queue == []
    {
      hide Lists, Grew;
      GrewNot(accepted, callbacks.asked);
      Ends(|queue|);
      var stop := last;
      var done := false;
      ghost var left := |queue|;
      while first != null && !done
        invariant Valid() && !running && fresh(nodes - old(nodes)) && old(nodes) <= nodes
        invariant old(accepted) <= accepted
        invariant Grew(old(accepted), accepted, old(callbacks.asked), callbacks.asked)
        invariant old(queue) == [] ==> accepted == old(accepted) && queue == []
        invariant first == null <==> queue == []
        invariant 0 <= left <= |queue| && |callbacks.ran| + left == |old(accepted)|
        invariant !done && left > 0 ==> queue[left - 1] == stop
        invariant if done then left == 0 else left > 0 || queue == []
        decreases left
      {
        ghost var p, a := accepted, callbacks.asked;
        done := RunFirst(stop, left);
        GrewTwice(old(accepted), p, accepted, old(callbacks.asked), a, callbacks.asked);
        left := left - 1;
      }
      Ends(0);
      assert callbacks.ran == accepted[..|callbacks.ran|] == old(accepted);
      NobodyAsked(old(accepted), accepted, callbacks.asked);
    }
  }
}
