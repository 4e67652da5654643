/**
  Functions called over and over from the main loop until they return false.  The functions and
  their alarms schedule further ones while the list is being run.
*/
module Recurrent {
  import opened Words
  import opened Schedule
  import PolledTimeout

  /** The periodic timeout of a node, on a clock that does not wrap around, and its alarm, if any. */
  datatype Timing = Timing(period: nat, start: nat, alarm: Option<Callable>) {
    predicate Due(now: nat) {
      period == 0 || start + period <= now
    }

    /** After a poll: a timeout that was due starts again at the last boundary of its periods. */
    function Polled(now: nat): Timing {
      if period > 0 && Due(now) then this.(start := PolledTimeout.Boundary(start, period, now)) else this
    }
  }

  /** What an alarm said, and what a function returned. */
  datatype Answer = Alarm(fn: Callable, wakeup: bool) | Returned(fn: Callable, again: bool)

  /** What is to be scheduled. */
  datatype Wish = Wish(fn: Option<Callable>, period: nat, alarm: Option<Callable>)

  /** A request to schedule, and the answer to it. */
  datatype Requested = Requested(wish: Wish, granted: bool)

  lemma PolledKeeps(t: Timing, now: nat)
    ensures t.Polled(now).period == t.period && t.Polled(now).alarm == t.alarm
  {
  }

  /** What one pass found at a node: its function and timing, when the timeout was polled, and the answers it got. */
  datatype Visit = Visit(node: Node, fn: Callable, timing: Timing, at: nat, wakeup: bool, again: bool) {
    /** The function is called for an alarm or when it is due. */
    predicate Called() {
      (timing.alarm.Some? && wakeup) || timing.Due(at)
    }

    /** The node is removed if its function then returns false. */
    predicate Removed() {
      Called() && !again
    }

    /** An alarm is asked where there is one, the function where it is called. */
    function Answers(): seq<Answer> {
      (if timing.alarm.Some? then [Alarm(timing.alarm.value, wakeup)] else [])
      + (if Called() then [Returned(fn, again)] else [])
    }
  }

  /** The nodes that stay: those not called and those whose function returned true. */
  ghost function Kept(visits: seq<Visit>): (nodes: seq<Node>)
    ensures |nodes| <= |visits|
  {
    if visits == [] then []
    else
      var v := visits[|visits| - 1];
      Kept(visits[..|visits| - 1]) + if v.Removed() then [] else [v.node]
  }

  /** All answers of a pass, in order. */
  ghost function AnswersIn(visits: seq<Visit>): seq<Answer> {
    if visits == [] then []
    else AnswersIn(visits[..|visits| - 1]) + visits[|visits| - 1].Answers()
  }

  lemma AnswersStep(visits: seq<Visit>, v: Visit)
    ensures AnswersIn(visits + [v]) == AnswersIn(visits) + v.Answers()
  {
    assert (visits + [v])[..|visits|] == visits;
  }

  /** A node is removed exactly when its function was called, for an alarm or in time, and returned false. */
  lemma KeptExactly(visits: seq<Visit>, i: nat)
    requires i < |visits|
    ensures Kept(visits[..0]) == []
    ensures var v := visits[i];
            Kept(visits[..i + 1]) == Kept(visits[..i]) +
              if ((v.timing.alarm.Some? && v.wakeup) || v.timing.period == 0
                  || v.timing.start + v.timing.period <= v.at) && !v.again
              then [] else [v.node]
  {
    assert visits[..i + 1] == visits[..i] + [visits[i]];
    KeptStep(visits[..i], visits[i]);
  }

  /** An alarm answers where there is one; then the function, where it is alarmed or in time. */
  lemma AnswersExactly(visits: seq<Visit>, i: nat)
    requires i < |visits|
    ensures AnswersIn(visits[..0]) == []
    ensures var v := visits[i];
            AnswersIn(visits[..i + 1]) == AnswersIn(visits[..i])
              + (if v.timing.alarm.Some? then [Alarm(v.timing.alarm.value, v.wakeup)] else [])
              + (if (v.timing.alarm.Some? && v.wakeup) || v.timing.period == 0
                    || v.timing.start + v.timing.period <= v.at
                 then [Returned(v.fn, v.again)] else [])
  {
    assert visits[..i + 1] == visits[..i] + [visits[i]];
    AnswersStep(visits[..i], visits[i]);
  }

  ghost predicate Visited(visits: seq<Visit>, nodes: seq<Node>) {
    |visits| == |nodes| && forall i :: 0 <= i < |nodes| ==> visits[i].node == nodes[i]
  }

  /** In the middle of a pass over `all`: the nodes kept, those still to be visited, and those added since. */
  ghost predicate Underway(list: seq<Node>, all: seq<Node>, visits: seq<Visit>, added: seq<Node>) {
    && |visits| <= |all| && Visited(visits, all[..|visits|])
    && list == Kept(visits) + all[|visits|..] + added
  }

  lemma Begins(all: seq<Node>)
    ensures Underway(all, all, [], []) && Kept([]) == []
  {
  }

  lemma Completed(list: seq<Node>, all: seq<Node>, visits: seq<Visit>, added: seq<Node>)
    requires Underway(list, all, visits, added) && |visits| == |all|
    ensures Visited(visits, all) && list == Kept(visits) + added
  {
    assert all[|all|..] == [] && all[..|all|] == all;
  }

  lemma Grown(list: seq<Node>, more: seq<Node>, all: seq<Node>, visits: seq<Visit>, added: seq<Node>)
    requires Underway(list, all, visits, added) && list <= more
    ensures Underway(more, all, visits, added + more[|list|..])
  {
  }

  lemma CurrentNode(list: seq<Node>, all: seq<Node>, visits: seq<Visit>, added: seq<Node>)
    requires Underway(list, all, visits, added) && |visits| < |all|
    ensures |Kept(visits)| < |list| && list[|Kept(visits)|] == all[|visits|]
    ensures Distinct(all) ==> (all[|visits|] == all[|all| - 1] <==> |visits| + 1 == |all|)
  {
  }

  lemma OneVisited(list: seq<Node>, all: seq<Node>, visits: seq<Visit>, added: seq<Node>, v: Visit)
    requires Underway(list, all, visits, added) && |visits| < |all| && v.node == all[|visits|]
    ensures var k := |Kept(visits)|;
            && list[k] == v.node
            && Underway(if v.Removed() then Without(list, k) else list, all, visits + [v], added)
            && |Kept(visits + [v])| == if v.Removed() then k else k + 1
  {
    hide Kept, Visited, Without;
    var i, k := |visits|, |Kept(visits)|;
    KeptStep(visits, v);
    VisitedStep(visits, all, v);
    assert all[i..] == [v.node] + all[i + 1..];
    WithoutMiddle(Kept(visits), v.node, all[i + 1..] + added);
    assert list == Kept(visits) + [v.node] + (all[i + 1..] + added);
    assert list == (Kept(visits) + [v.node]) + all[i + 1..] + added;
  }

  lemma KeptStep(visits: seq<Visit>, v: Visit)
    ensures Kept(visits + [v]) == if v.Removed() then Kept(visits) else Kept(visits) + [v.node]
  {
    assert (visits + [v])[..|visits|] == visits;
  }

  lemma VisitedStep(visits: seq<Visit>, all: seq<Node>, v: Visit)
    requires |visits| < |all| && Visited(visits, all[..|visits|]) && v.node == all[|visits|]
    ensures Visited(visits + [v], all[..|visits| + 1])
  {
    assert all[..|visits| + 1] == all[..|visits|] + [v.node];
  }

  lemma WithoutMiddle(a: seq<Node>, n: Node, b: seq<Node>)
    ensures Without(a + [n] + b, |a|) == a + b
  {
  }

  // ---------------------------------------------------------------- timing

  /** u is t with further nodes. */
  ghost predicate Extends<T>(t: map<Node, T>, u: map<Node, T>) {
    forall n :: n in t ==> n in u && u[n] == t[n]
  }

  lemma ExtendsNot<T>(t: map<Node, T>)
    ensures Extends(t, t)
  {
  }

  lemma ExtendsTwice<T>(t: map<Node, T>, u: map<Node, T>, v: map<Node, T>)
    requires Extends(t, u) && Extends(u, v)
    ensures Extends(t, v)
  {
  }

  lemma StillThere<T>(t: map<Node, T>, u: map<Node, T>, n: Node)
    requires Extends(t, u) && n in t
    ensures n in u && u[n] == t[n]
  {
  }

  lemma ExtendsUpdated<T>(t: map<Node, T>, u: map<Node, T>, n: Node, x: T)
    requires Extends(t, u)
    ensures Extends(t[n := x], u[n := x])
  {
  }

  /** What a pass finds when it begins. */
  datatype Start = Start(all: seq<Node>, jobs: map<Node, Wish>, timings: map<Node, Timing>, now: nat)

  /**
    Visit i found the function its node was scheduled with and the timing from the start of the pass,
    which was polled once, at the time noted.
  */
  ghost predicate PolledOnce(b: Start, v: Visit, i: nat, timings: map<Node, Timing>, now: nat)
    requires i < |b.all| && b.all[i] in b.jobs && b.all[i] in b.timings && b.all[i] in timings
  {
    && Some(v.fn) == b.jobs[b.all[i]].fn
    && v.timing == b.timings[b.all[i]] && b.now <= v.at <= now
    && timings[b.all[i]] == v.timing.Polled(v.at)
  }

  /** The visited nodes have been polled, one after the other, and the others not. */
  ghost predicate OnTime(b: Start, visits: seq<Visit>, timings: map<Node, Timing>, now: nat) {
    && |visits| <= |b.all| && b.now <= now
    && (forall i :: 0 <= i < |b.all| ==> b.all[i] in b.jobs && b.all[i] in b.timings && b.all[i] in timings)
    && (forall i :: 0 <= i < |visits| ==> PolledOnce(b, visits[i], i, timings, now))
    && (forall i, j :: 0 <= i < j < |visits| ==> visits[i].at <= visits[j].at)
    && (forall i :: |visits| <= i < |b.all| ==> timings[b.all[i]] == b.timings[b.all[i]])
  }

  /** The next node still has the timing, and was scheduled with the function, of the start of the pass. */
  lemma SameJob(b: Start, visits: seq<Visit>, timings: map<Node, Timing>, now: nat, jobs: map<Node, Wish>)
    requires OnTime(b, visits, timings, now) && |visits| < |b.all| && Extends(b.jobs, jobs)
    ensures var n := b.all[|visits|]; n in b.jobs && n in jobs && jobs[n] == b.jobs[n] && n in timings
  {
  }

  lemma OnTimeLater(b: Start, visits: seq<Visit>, t: map<Node, Timing>, now: nat, u: map<Node, Timing>, later: nat)
    requires OnTime(b, visits, t, now) && Extends(t, u) && now <= later
    ensures OnTime(b, visits, u, later)
  {
    forall i | 0 <= i < |visits|
      ensures PolledOnce(b, visits[i], i, u, later)
    {
      assert PolledOnce(b, visits[i], i, t, now);
    }
  }

  /** One more node has been polled. */
  lemma OnTimeVisit(b: Start, visits: seq<Visit>, t: map<Node, Timing>, now: nat, v: Visit, u: map<Node, Timing>,
                    later: nat)
    requires OnTime(b, visits, t, now) && Distinct(b.all) && |visits| < |b.all| && v.node == b.all[|visits|]
    requires Some(v.fn) == b.jobs[v.node].fn
    requires v.timing == t[v.node] && now <= v.at <= later && Extends(t[v.node := v.timing.Polled(v.at)], u)
    ensures OnTime(b, visits + [v], u, later)
  {
    var more := visits + [v];
    forall i | 0 <= i < |more|
      ensures PolledOnce(b, more[i], i, u, later)
    {
      if i < |visits| {
        assert PolledOnce(b, visits[i], i, t, now);
        assert b.all[i] != v.node;
      }
    }
    forall i, j | 0 <= i < j < |more|
      ensures more[i].at <= more[j].at
    {
      assert PolledOnce(b, visits[i], i, t, now);
    }
  }

  /**
    Every function that is due when a pass begins is called in it, and none is called before it is
    due unless its alarm has asked for it.  It is the function that its node was scheduled with.
  */
  lemma CalledWhenDue(b: Start, visits: seq<Visit>, timings: map<Node, Timing>, now: nat, i: nat)
    requires OnTime(b, visits, timings, now) && i < |visits|
    ensures var v, t := visits[i], b.timings[b.all[i]];
            && b.jobs[b.all[i]].fn == Some(v.fn) && v.timing == t
            && (t.period == 0 || t.start + t.period <= b.now ==> Returned(v.fn, v.again) in v.Answers())
            && (Returned(v.fn, v.again) in v.Answers() ==>
                 || (t.alarm.Some? && Alarm(t.alarm.value, true) in v.Answers())
                 || t.period == 0 || t.start + t.period <= now)
  {
    assert PolledOnce(b, visits[i], i, timings, now);
  }

  /** A function that was called because it was due is not due again before the end of its period. */
  lemma NotDueAgain(b: Start, visits: seq<Visit>, timings: map<Node, Timing>, now: nat, i: nat, later: nat)
    requires OnTime(b, visits, timings, now) && i < |visits| && visits[i].timing.period > 0
    requires visits[i].timing.start + visits[i].timing.period <= visits[i].at
    ensures var t, u := visits[i].timing, timings[b.all[i]];
            && u.start <= visits[i].at < u.start + u.period && (u.start - t.start) % t.period == 0
            && (u.start + u.period <= later ==> visits[i].at < later)
  {
    assert PolledOnce(b, visits[i], i, timings, now);
  }

  // ---------------------------------------------------------------- requests

  /** The wishes granted, in order. */
  ghost function GrantedWishes(asked: seq<Requested>): seq<Wish> {
    if asked == [] then []
    else
      var a := asked[|asked| - 1];
      GrantedWishes(asked[..|asked| - 1]) + if a.granted then [a.wish] else []
  }

  lemma {:induction false} WishesJoin(a: seq<Requested>, b: seq<Requested>)
    ensures GrantedWishes(a + b) == GrantedWishes(a) + GrantedWishes(b)
    decreases |b|
  {
    if b == [] {
      assert a + b == a;
    } else {
      var c := b[..|b| - 1];
      assert (a + b)[..|a + b| - 1] == a + c;
      WishesJoin(a, c);
    }
  }

  /** The nodes were scheduled with exactly these wishes. */
  ghost predicate Tied(nodes: seq<Node>, wishes: seq<Wish>, jobs: map<Node, Wish>) {
    |nodes| == |wishes| && forall i :: 0 <= i < |nodes| ==> nodes[i] in jobs && jobs[nodes[i]] == wishes[i]
  }

  /** While the requests grew from `before` to `now`, exactly those granted added the nodes. */
  ghost predicate Wished(added: seq<Node>, before: seq<Requested>, now: seq<Requested>, jobs: map<Node, Wish>) {
    before <= now && Tied(added, GrantedWishes(now[|before|..]), jobs)
  }

  /** What was added is what was granted, in order. */
  lemma AddedAsAsked(added: seq<Node>, before: seq<Requested>, more: seq<Requested>, jobs: map<Node, Wish>, i: nat)
    requires Wished(added, before, before + more, jobs)
    ensures |added| == |GrantedWishes(more)|
    ensures i < |added| ==> added[i] in jobs && jobs[added[i]] == GrantedWishes(more)[i]
  {
    assert (before + more)[|before|..] == more;
  }

  lemma WishedNot(a: seq<Requested>, jobs: map<Node, Wish>)
    ensures Wished([], a, a, jobs)
  {
  }

  lemma WishedOne(added: seq<Node>, a: seq<Requested>, wish: Wish, granted: bool, jobs: map<Node, Wish>)
    requires if granted then |added| == 1 && added[0] in jobs && jobs[added[0]] == wish else added == []
    ensures Wished(added, a, a + [Requested(wish, granted)], jobs)
  {
    var more := (a + [Requested(wish, granted)])[|a|..];
    assert more == [Requested(wish, granted)] && more[..0] == [];
  }

  lemma WishedTwice(p: seq<Node>, q: seq<Node>, a: seq<Requested>, b: seq<Requested>, c: seq<Requested>,
                    j: map<Node, Wish>, k: map<Node, Wish>)
    requires Wished(p, a, b, j) && Wished(q, b, c, k) && Extends(j, k)
    ensures Wished(p + q, a, c, k)
  {
    hide GrantedWishes;
    WishesJoin(b[|a|..], c[|b|..]);
    assert b[|a|..] + c[|b|..] == c[|a|..];
  }

  // ---------------------------------------------------------------- the list

  function Without(nodes: seq<Node>, k: nat): (rest: seq<Node>)
    requires k < |nodes|
    ensures |rest| == |nodes| - 1
    ensures forall i :: 0 <= i < |rest| ==> rest[i] == nodes[if i < k then i else i + 1]
  {
    nodes[..k] + nodes[k + 1..]
  }

  lemma OtherNodes(nodes: seq<Node>, k: nat)
    requires Distinct(nodes) && k < |nodes|
    ensures forall i :: 0 <= i < |nodes| && i != k ==> nodes[i] != nodes[k]
  {
  }

  /** The list once the node before position k has been linked to the one after it. */
  lemma Spliced(head: Node?, nodes: seq<Node>, k: nat)
    requires k < |nodes| && Distinct(nodes)
    requires forall i :: 0 <= i < |nodes| && i != k && i != k - 1 ==> nodes[i].next == After(nodes, i)
    requires k > 0 ==> nodes[k - 1].next == After(nodes, k)
    requires head == if k > 0 then nodes[0] else After(nodes, 0)
    ensures Linked(head, Without(nodes, k)) && Distinct(Without(nodes, k))
  {
    var rest := Without(nodes, k);
    forall i | 0 <= i < |rest|
      ensures rest[i].next == After(rest, i)
    {
      var j := if i < k then i else i + 1;
      assert rest[i] == nodes[j];
      if j != k - 1 {
        assert nodes[j].next == After(nodes, j);
      }
    }
  }

  /**
    The alarms, the functions, and whoever else schedules any: they ask for what they want scheduled,
    and keep a record of the answers they get and of those they give.
  */
  class Callees {
    ghost var log: seq<Answer>
    ghost var asked: seq<Requested>
    ghost var pending: Option<Wish>

    constructor ()
      ensures log == [] && asked == [] && pending.None?
    {
      log, asked, pending := [], [], None;
    }

    method AskAlarm(fn: Callable) returns (wakeup: bool)
      modifies `log
      ensures log == old(log) + [Alarm(fn, wakeup)]
    {
      wakeup := *;
      log := log + [Alarm(fn, wakeup)];
    }

    method Call(fn: Callable) returns (again: bool)
      modifies `log
      ensures log == old(log) + [Returned(fn, again)]
    {
      again := *;
      log := log + [Returned(fn, again)];
    }

    /** What is to be scheduled next. */
    method Request() returns (wish: Wish)
      modifies `pending
      ensures pending == Some(wish)
    {
      wish := *;
      pending := Some(wish);
    }

    method Reply(granted: bool)
      requires pending.Some?
      modifies `pending, `asked
      ensures pending.None? && asked == old(asked) + [Requested(old(pending).value, granted)]
    {
      asked := asked + [Requested(pending.value, granted)];
      pending := None;
    }
  }

  class Scheduler {
    const callees: Callees
    // Whether allocation never fails.
    const memory: bool
    // The time, and the timing of the nodes.
    var now: nat
    var timings: map<Node, Timing>
    var first: Node?
    var last: Node?
    var fence: bool
    ghost var list: seq<Node>
    ghost var nodes: set<Node>
    // What the nodes were scheduled with.
    ghost var jobs: map<Node, Wish>

    constructor (owners: Callees, plenty: bool)
      ensures Valid() && fresh(nodes) && list == [] && !fence && callees == owners && memory == plenty
    {
      callees, memory, now, timings := owners, plenty, 0, map[];
      first, last, fence := null, null, false;
      list, nodes, jobs := [], {}, map[];
    }

    ghost predicate Valid()
      reads `first, `last, `list, `nodes, `timings, `jobs, nodes
    {
      WellFormed() && Timed(list) && Named(list)
    }

    /** Nodes hold the function they were scheduled with. */
    ghost predicate Named(these: seq<Node>)
      reads `jobs, these`func
    {
      forall i :: 0 <= i < |these| ==>
        these[i] in jobs && these[i].func.Some? && these[i].func == jobs[these[i]].fn
    }

    /** Nodes have the timing they were scheduled with, but for its start. */
    ghost predicate Timed(these: seq<Node>)
      reads `timings, `jobs
    {
      forall i :: 0 <= i < |these| ==>
        && these[i] in timings && these[i] in jobs
        && timings[these[i]].period == jobs[these[i]].period && timings[these[i]].alarm == jobs[these[i]].alarm
    }

    /** The list has no cycle, no node twice, and `last` at its end. */
    ghost predicate WellFormed()
      reads `first, `last, `list, `nodes, nodes
    {
      && (forall i :: 0 <= i < |list| ==> list[i] in nodes)
      && Linked(first, list) && Distinct(list)
      && last == (if list == [] then null else list[|list| - 1])
    }

    /** The part of `schedule_recurrent_function_us` that links the new node. */
    method Link(item: Node)
      requires WellFormed() && NotIn(item, list) && item in nodes && item.next == null
      modifies `first, `last, `list, nodes`next
      ensures WellFormed() && list == old(list) + [item]
    {
      if last != null {
        last.next := item;
      } else {
        first := item;
      }
      Appended(first, list, item);
      last := item;
      list := list + [item];
    }

    /** `schedule_recurrent_function_us`; where memory is short allocation may fail. */
    method ScheduleRecurrent(fn: Option<Callable>, period: nat, alarm: Option<Callable>) returns (ok: bool)
      requires Valid()
      modifies `first, `last, `list, `nodes, `timings, `jobs, nodes
      ensures Valid() && fresh(nodes - old(nodes)) && old(nodes) <= nodes
      ensures Extends(old(timings), timings) && Extends(old(jobs), jobs)
      ensures ok ==>
        && fn.Some? && |list| == |old(list)| + 1 && old(list) <= list
        && var item := list[|old(list)|];
           && fresh(item) && item.func == fn && item in jobs && jobs[item] == Wish(fn, period, alarm)
           && timings[item] == Timing(period, now, alarm)
      ensures !ok ==> list == old(list)
      ensures memory && fn.Some? ==> ok
    {
      hide Linked, Distinct, NotIn, Timed, Named, Extends;
      ExtendsNot(timings);
      ExtendsNot(jobs);
      ok := false;
      var enoughMemory: bool := *;
      if fn.Some? && (memory || enoughMemory) {
        var item := NewItem(fn.value, Timing(period, now, alarm));
        OneMore(item);
        Link(item);
        ok := true;
      }
    }

    lemma OneMore(item: Node)
      requires Timed(list) && Named(list) && item in timings && item in jobs
      requires timings[item].period == jobs[item].period && timings[item].alarm == jobs[item].alarm
      requires item.func.Some? && item.func == jobs[item].fn
      ensures Timed(list + [item]) && Named(list + [item])
    {
    }

    /** A new node, which starts its first period now. */
    method NewItem(fn: Callable, timing: Timing) returns (item: Node)
      requires Valid()
      modifies `nodes, `timings, `jobs
      ensures Valid() && fresh(item) && nodes == old(nodes) + {item} && NotIn(item, list)
      ensures item.next == null && item.func == Some(fn)
      ensures timings == old(timings)[item := timing] && Extends(old(timings), timings)
      ensures jobs == old(jobs)[item := Wish(Some(fn), timing.period, timing.alarm)] && Extends(old(jobs), jobs)
    {
      item := new Node();
      item.func := Some(fn);
      nodes := nodes + {item};
      timings := timings[item := timing];
      jobs := jobs[item := Wish(Some(fn), timing.period, timing.alarm)];
    }

    /**
      What a function or an alarm may do: let time go by, have functions scheduled, and run the
      scheduled ones, which is fenced off.
    */
    method Activity()
      requires Valid() && fence
      modifies this, nodes, callees
      ensures Valid() && fence && fresh(nodes - old(nodes)) && old(nodes) <= nodes
      ensures Extends(old(timings), timings) && Extends(old(jobs), jobs)
      ensures old(now) <= now && callees.log == old(callees.log)
      ensures old(list) <= list && forall i :: |old(list)| <= i < |list| ==> fresh(list[i])
      ensures Wished(list[|old(list)|..], old(callees.asked), callees.asked, jobs)
      decreases 1
    {
      hide Valid, Wished;
      WishedNot(callees.asked, jobs);
      assert list[|list|..] == [];
      var more: nat := *;
      while more > 0
        invariant Valid() && fence && fresh(nodes - old(nodes)) && old(nodes) <= nodes
        invariant Extends(old(timings), timings) && Extends(old(jobs), jobs)
        invariant old(now) <= now && callees.log == old(callees.log)
        invariant old(list) <= list && forall i :: |old(list)| <= i < |list| ==> fresh(list[i])
        invariant Wished(list[|old(list)|..], old(callees.asked), callees.asked, jobs)
      {
        var pause: int := *;
        if pause > 0 {
          now := now + pause;
        }
        ghost var l, a, j := list, callees.asked, jobs;
        ghost var others := Serve();
        WishedTwice(l[|old(list)|..], others, old(callees.asked), a, callees.asked, j, jobs);
        assert list[|old(list)|..] == l[|old(list)|..] + others;
        var again: bool := *;
        if again {
          ghost var visits, added;
          visits, added := RunScheduledRecurrent();
        }
        more := more - 1;
      }
    }

    /** One request to schedule a function. */
    method Serve() returns (ghost others: seq<Node>)
      requires Valid()
      modifies `first, `last, `list, `nodes, `timings, `jobs, nodes, callees
      ensures Valid() && fresh(nodes - old(nodes)) && old(nodes) <= nodes
      ensures Extends(old(timings), timings) && Extends(old(jobs), jobs) && callees.log == old(callees.log)
      ensures list == old(list) + others && forall i :: 0 <= i < |others| ==> fresh(others[i])
      ensures Wished(others, old(callees.asked), callees.asked, jobs)
    {
      hide Valid, Wished;
      var wish := callees.Request();
      var ok := ScheduleRecurrent(wish.fn, wish.period, wish.alarm);
      callees.Reply(ok);
      others := list[|old(list)|..];
      WishedOne(others, old(callees.asked), wish, ok, jobs);
    }

    /** What a node in the list holds. */
    lemma JobAt(k: nat)
      requires Valid() && k < |list|
      ensures list[k] in timings && list[k] in jobs
      ensures list[k].func.Some? && list[k].func == jobs[list[k]].fn
    {
    }

    /** An alarm is asked, if there is one. */
    method Hear(alarm: Option<Callable>) returns (wakeup: bool)
      requires Valid() && fence
      modifies this, nodes, callees
      ensures Valid() && fence && fresh(nodes - old(nodes)) && old(nodes) <= nodes
      ensures Extends(old(timings), timings) && Extends(old(jobs), jobs) && old(now) <= now
      ensures old(list) <= list && forall i :: |old(list)| <= i < |list| ==> fresh(list[i])
      ensures Wished(list[|old(list)|..], old(callees.asked), callees.asked, jobs)
      ensures alarm.None? ==> !wakeup
      ensures callees.log == old(callees.log) + if alarm.Some? then [Alarm(alarm.value, wakeup)] else []
      decreases 2
    {
      hide Valid, Wished, Extends;
      ExtendsNot(timings);
      ExtendsNot(jobs);
      WishedNot(callees.asked, jobs);
      assert list[|list|..] == [];
      wakeup := false;
      if alarm.Some? {
        Activity();
        wakeup := callees.AskAlarm(alarm.value);
      }
    }

    /** The function of the node at position k is called. */
    method CallFn(current: Node, ghost k: nat) returns (again: bool)
      requires Valid() && fence && k < |list| && list[k] == current
      modifies this, nodes, callees
      ensures Valid() && fence && fresh(nodes - old(nodes)) && old(nodes) <= nodes
      ensures Extends(old(timings), timings) && Extends(old(jobs), jobs) && old(now) <= now
      ensures old(list) <= list && forall i :: |old(list)| <= i < |list| ==> fresh(list[i])
      ensures Wished(list[|old(list)|..], old(callees.asked), callees.asked, jobs)
      ensures current in old(jobs) && old(jobs)[current].fn.Some?
      ensures callees.log == old(callees.log) + [Returned(old(jobs)[current].fn.value, again)]
      decreases 2
    {
      hide Valid, Wished;
      JobAt(k);
      Activity();
      JobAt(k);
      again := callees.Call(current.func.value);
    }

    /** The alarm, the timeout and the function of one node. */
    method CallCurrent(current: Node, ghost k: nat) returns (ditch: bool, ghost visit: Visit)
      requires Valid() && fence && k < |list| && list[k] == current
      modifies this, nodes, callees
      ensures Valid() && fence && fresh(nodes - old(nodes)) && old(nodes) <= nodes
      ensures old(list) <= list && forall i :: |old(list)| <= i < |list| ==> fresh(list[i])
      ensures current in old(timings) && current in old(jobs)
      ensures visit.node == current && Some(visit.fn) == old(jobs)[current].fn
      ensures visit.timing == old(timings)[current] && old(now) <= visit.at <= now
      ensures Extends(old(timings)[current := visit.timing.Polled(visit.at)], timings) && Extends(old(jobs), jobs)
      ensures ditch <==> visit.Removed()
      ensures callees.log == old(callees.log) + visit.Answers()
      ensures Wished(list[|old(list)|..], old(callees.asked), callees.asked, jobs)
      decreases 3
    {
      hide Valid, Wished, Extends;
      JobAt(k);
      ghost var l0, t0, j0 := list, timings, jobs;
      var wakeup := Hear(timings[current].alarm);
      StillThere(t0, timings, current);
      StillThere(j0, jobs, current);
      JobAt(k);
      ghost var l, a, j, t, at := list, callees.asked, jobs, timings, now;
      var callNow := Poll(current, k);
      ExtendsUpdated(t0, t, current, t0[current].Polled(at));
      var again := true;
      if wakeup || callNow {
        ghost var u := timings;
        again := CallFn(current, k);
        ExtendsTwice(t0[current := t0[current].Polled(at)], u, timings);
        ExtendsTwice(j0, j, jobs);
        WishedTwice(l[|l0|..], list[|l|..], old(callees.asked), a, callees.asked, j, jobs);
        assert list[|l0|..] == l[|l0|..] + list[|l|..];
      }
      ditch := (wakeup || callNow) && !again;
      visit := Visit(current, j0[current].fn.value, t0[current], at, wakeup, again);
    }

    /** The timeout of a node is polled. */
    method Poll(current: Node, ghost k: nat) returns (due: bool)
      requires Valid() && k < |list| && list[k] == current
      modifies `timings
      ensures current in old(timings)
      ensures Valid() && due == old(timings)[current].Due(now)
      ensures timings == old(timings)[current := old(timings)[current].Polled(now)]
    {
      hide WellFormed, Named, Timing.Polled, Timing.Due;
      JobAt(k);
      PolledKeeps(timings[current], now);
      due := timings[current].Due(now);
      timings := timings[current := timings[current].Polled(now)];
    }

    /** Where a pass stands: `prev` is the last node kept, `current` the one after it. */
    ghost predicate At(prev: Node?, current: Node?, k: nat)
      reads this
    {
      && k <= |list|
      && prev == (if k == 0 then null else list[k - 1])
      && current == (if k == |list| then null else list[k])
    }

    /** Links the node before the current one to the one after it. */
    method Relink(prev: Node?, current: Node, ghost k: nat) returns (next: Node?)
      requires WellFormed() && k < |list| && At(prev, current, k)
      modifies `first, nodes`next
      ensures next == After(list, k) && first == if k > 0 then list[0] else After(list, 0)
      ensures forall i :: 0 <= i < |list| && i != k && i != k - 1 ==> list[i].next == After(list, i)
      ensures k > 0 ==> list[k - 1].next == After(list, k)
    {
      if k > 0 {
        OtherNodes(list, k - 1);
      }
      hide Distinct;
      next := current.next;
      if prev != null {
        prev.next := next;
      } else {
        first := next;
      }
    }

    /** Removes the current node; it is deleted. */
    method Ditch(prev: Node?, current: Node, ghost k: nat) returns (next: Node?)
      requires WellFormed() && k < |list| && At(prev, current, k)
      modifies `first, `last, `list, nodes`next
      ensures WellFormed() && list == Without(old(list), k) && At(prev, next, k)
    {
      hide Linked, Distinct;
      LastAt(k);
      next := Relink(prev, current, k);
      Spliced(first, list, k);
      if last == current {
        last := prev;
      }
      list := Without(list, k);
    }

    lemma LastAt(k: nat)
      requires WellFormed() && k < |list|
      ensures Distinct(list) && (last == list[k] <==> k == |list| - 1)
    {
    }

    /** Goes on behind the current node. */
    method StepOver(current: Node, ghost k: nat) returns (prev: Node?, next: Node?)
      requires WellFormed() && k < |list| && list[k] == current
      ensures At(prev, next, k + 1)
    {
      prev := current;
      next := current.next;
    }

    /** Goes on to the next node, with or without the current one removed. */
    method Move(prev: Node?, current: Node, ditch: bool, ghost k: nat) returns (newPrev: Node?, next: Node?)
      requires Valid() && k < |list| && At(prev, current, k)
      modifies `first, `last, `list, nodes`next
      ensures Valid() && list == (if ditch then Without(old(list), k) else old(list))
      ensures At(newPrev, next, if ditch then k else k + 1)
    {
      hide WellFormed, Linked, Distinct;
      if ditch {
        next := Ditch(prev, current, k);
        newPrev := prev;
      } else {
        newPrev, next := StepOver(current, k);
      }
    }

    /** In the middle of a pass that began with b. */
    ghost predicate Passing(b: Start, visits: seq<Visit>, added: seq<Node>)
      reads this
    {
      && Distinct(b.all) && Underway(list, b.all, visits, added) && OnTime(b, visits, timings, now)
      && |visits| <= |b.all| && |Kept(visits)| <= |list| && Extends(b.jobs, jobs)
    }

    lemma Next(b: Start, visits: seq<Visit>, added: seq<Node>)
      requires Valid() && Passing(b, visits, added) && |visits| < |b.all|
      ensures var k := |Kept(visits)|;
              && k < |list| && list[k] == b.all[|visits|]
              && (b.all[|visits|] == b.all[|b.all| - 1] <==> |visits| + 1 == |b.all|)
    {
      CurrentNode(list, b.all, visits, added);
    }

    /** The visit of one node. */
    method VisitNode(prev: Node?, current: Node, ghost b: Start, ghost visits: seq<Visit>, ghost added: seq<Node>)
      returns (newPrev: Node?, next: Node?, ghost visit: Visit, ghost more: seq<Node>)
      requires Valid() && fence && Passing(b, visits, added) && |visits| < |b.all|
      requires At(prev, current, |Kept(visits)|)
      modifies this, nodes, callees
      ensures Valid() && fence && fresh(nodes - old(nodes)) && old(nodes) <= nodes
      ensures Passing(b, visits + [visit], added + more) && forall i :: 0 <= i < |more| ==> fresh(more[i])
      ensures callees.log == old(callees.log) + visit.Answers()
      ensures Wished(more, old(callees.asked), callees.asked, jobs) && Extends(old(jobs), jobs)
      ensures At(newPrev, next, |Kept(visits + [visit])|)
      decreases 4
    {
      hide Valid, Underway, Without, Kept, OnTime, Extends, Distinct, Wished;
      Next(b, visits, added);
      ghost var k, before, t, n0 := |Kept(visits)|, list, timings, now;
      SameJob(b, visits, timings, now, jobs);
      ghost var j := jobs;
      var ditch;
      ditch, visit := CallCurrent(current, k);
      ExtendsTwice(b.jobs, j, jobs);
      more := list[|before|..];
      Grown(before, list, b.all, visits, added);
      OnTimeVisit(b, visits, t, n0, visit, timings, now);
      OneVisited(list, b.all, visits, added + more, visit);
      newPrev, next := Move(prev, current, ditch, k);
    }

    /** One round of the pass. */
    method Round(prev: Node?, current: Node, stop: Node?, ghost b: Start, ghost visits: seq<Visit>,
                 ghost added: seq<Node>)
      returns (newPrev: Node?, next: Node?, done: bool, ghost visit: Visit, ghost more: seq<Node>)
      requires Valid() && fence && Passing(b, visits, added) && |visits| < |b.all|
      requires stop == b.all[|b.all| - 1] && At(prev, current, |Kept(visits)|)
      modifies this, nodes, callees
      ensures Valid() && fence && fresh(nodes - old(nodes)) && old(nodes) <= nodes
      ensures Passing(b, visits + [visit], added + more) && forall i :: 0 <= i < |more| ==> fresh(more[i])
      ensures callees.log == old(callees.log) + visit.Answers()
      ensures Wished(more, old(callees.asked), callees.asked, jobs) && Extends(old(jobs), jobs)
      ensures done <==> |visits| + 1 == |b.all|
      ensures !done ==> next != null && At(newPrev, next, |Kept(visits + [visit])|)
      decreases 6
    {
      hide Valid, Without, Kept, Underway, OnTime, Extends, Wished;
      Next(b, visits, added);
      done := current == stop;
      newPrev, next, visit, more := VisitNode(prev, current, b, visits, added);
      if |visits| + 1 < |b.all| {
        Next(b, visits + [visit], added + more);
      }
      var yieldNow: bool := *;
      if yieldNow {
        ghost var a, j := callees.asked, jobs;
        ghost var others := Yield(b, visits + [visit], added + more);
        WishedTwice(more, others, old(callees.asked), a, callees.asked, j, jobs);
        ExtendsTwice(old(jobs), j, jobs);
        assert added + (more + others) == added + more + others;
        more := more + others;
      }
    }

    /** Other things run between two nodes. */
    method Yield(ghost b: Start, ghost visits: seq<Visit>, ghost added: seq<Node>) returns (ghost others: seq<Node>)
      requires Valid() && fence && Passing(b, visits, added)
      modifies this, nodes, callees
      ensures Valid() && fence && fresh(nodes - old(nodes)) && old(nodes) <= nodes
      ensures Passing(b, visits, added + others) && forall i :: 0 <= i < |others| ==> fresh(others[i])
      ensures old(list) <= list && callees.log == old(callees.log)
      ensures Wished(others, old(callees.asked), callees.asked, jobs) && Extends(old(jobs), jobs)
      decreases 3
    {
      hide Valid, Underway, Kept, OnTime, Extends, Distinct, Wished;
      ghost var l, t, n, j := list, timings, now, jobs;
      Activity();
      ExtendsTwice(b.jobs, j, jobs);
      others := list[|l|..];
      Grown(l, list, b.all, visits, added);
      OnTimeLater(b, visits, t, n, timings, now);
    }

    /**
      `run_scheduled_recurrent_functions`: one pass visits the functions present at its start once
      each and in order, asks each alarm, polls each timeout, calls exactly the functions alarmed or
      due, removes exactly those that returned false, and leaves those added meanwhile at the end,
      unvisited.  A pass inside a pass does nothing.
    */
    method RunScheduledRecurrent() returns (ghost visits: seq<Visit>, ghost added: seq<Node>)
      requires Valid()
      modifies this, nodes, callees
      ensures Valid() && fence == old(fence) && fresh(nodes - old(nodes)) && old(nodes) <= nodes
      ensures if old(fence) then visits == []
              else |visits| == |old(list)| && forall i :: 0 <= i < |visits| ==> visits[i].node == old(list)[i]
      ensures callees.log == old(callees.log) + AnswersIn(visits)
      ensures if old(fence) then timings == old(timings) && now == old(now)
              else OnTime(Start(old(list), old(jobs), old(timings), old(now)), visits, timings, now)
      ensures Extends(old(jobs), jobs) && Wished(added, old(callees.asked), callees.asked, jobs)
      ensures old(fence) ==> jobs == old(jobs) && callees.asked == old(callees.asked)
      ensures list == (if old(fence) then old(list) else Kept(visits) + added)
      ensures forall i :: 0 <= i < |added| ==> fresh(added[i])
      decreases if fence then 0 else 8
    {
      hide Wished, Kept, OnTime, Extends, AnswersIn, WellFormed, Timed, Named;
      WishedNot(callees.asked, jobs);
      ExtendsNot(jobs);
      NothingYet();
      visits, added := [], [];
      var current := first;
      if current == null || fence {
        return;
      }
      fence := true;
      visits, added := Pass(current);
      fence := false;
    }

    lemma NothingYet()
      requires Valid()
      ensures first == (if list == [] then null else list[0])
      ensures Kept([]) == [] && AnswersIn([]) == []
      ensures list == [] ==> OnTime(Start(list, jobs, timings, now), [], timings, now)
    {
    }

    lemma PassBegins()
      requires Valid() && list != []
      ensures last == list[|list| - 1] && At(null, list[0], 0)
      ensures Kept([]) == [] && Passing(Start(list, jobs, timings, now), [], [])
    {
      Begins(list);
    }

    lemma PassEnds(b: Start, visits: seq<Visit>, added: seq<Node>)
      requires Passing(b, visits, added) && |visits| == |b.all|
      ensures Visited(visits, b.all) && list == Kept(visits) + added && OnTime(b, visits, timings, now)
    {
      Completed(list, b.all, visits, added);
    }

    /** The loop of `run_scheduled_recurrent_functions`. */
    method Pass(start: Node) returns (ghost visits: seq<Visit>, ghost added: seq<Node>)
      requires Valid() && fence && list != [] && start == list[0]
      modifies this, nodes, callees
      ensures Valid() && fence && fresh(nodes - old(nodes)) && old(nodes) <= nodes
      ensures Visited(visits, old(list)) && list == Kept(visits) + added
      ensures callees.log == old(callees.log) + AnswersIn(visits)
      ensures OnTime(Start(old(list), old(jobs), old(timings), old(now)), visits, timings, now)
      ensures Extends(old(jobs), jobs) && Wished(added, old(callees.asked), callees.asked, jobs)
      ensures forall i :: 0 <= i < |added| ==> fresh(added[i])
      decreases 7
    {
      hide Valid, Passing, Kept, Visited, OnTime, At, Wished, Extends, AnswersIn;
      NothingYet();
      visits, added := [], [];
      ghost var b := Start(list, jobs, timings, now);
      WishedNot(callees.asked, jobs);
      ExtendsNot(jobs);
      PassBegins();
      var current: Node?, prev: Node?, stop := start, null, last;
      var done, more := false, true;
      while more
        invariant Valid() && fence && fresh(nodes - old(nodes)) && old(nodes) <= nodes
        invariant Passing(b, visits, added) && callees.log == old(callees.log) + AnswersIn(visits)
        invariant forall i :: 0 <= i < |added| ==> fresh(added[i])
        invariant Extends(old(jobs), jobs) && Wished(added, old(callees.asked), callees.asked, jobs)
        invariant more ==> |visits| < |b.all| && current != null && At(prev, current, |Kept(visits)|)
        invariant !more ==> |visits| == |b.all|
        decreases |b.all| - |visits|
      {
        ghost var a, j := callees.asked, jobs;
        ghost var visit, others;
        prev, current, done, visit, others := Round(prev, current, stop, b, visits, added);
        AnswersStep(visits, visit);
        WishedTwice(added, others, old(callees.asked), a, callees.asked, j, jobs);
        ExtendsTwice(old(jobs), j, jobs);
        visits, added := visits + [visit], added + others;
        more := current != null && !done;
      }
      PassEnds(b, visits, added);
    }
  }
}
