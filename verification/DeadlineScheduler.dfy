/**
  What the alarm list is for, without 32-bit words and without pointers: a list of alarms, each with
  the tick number at which it is to be called, on a clock that never wraps. The list order is that of
  the linked list, newest first. During the pass that one tick makes over the list, a callback may
  start and stop alarms; the pass goes on where the alarm stands that was next in line before the callback,
  which may meanwhile have been stopped and started again.
 */
module DeadlineScheduler {
  import opened TickArithmetic

  datatype Item<Id> = Item(id: Id, deadline: nat)
  datatype Sched<Id> = Sched(now: nat, items: seq<Item<Id>>)

  datatype Op<Id> = Start(id: Id, nticks: Word) | Stop(id: Id)

  /** What happened to one alarm when the pass came to it. */
  datatype Visit<Id> =
    | NotDue(id: Id)
    | Called(id: Id, ops: seq<Op<Id>>, reply: Word)

  /** A pass under way: `done` is the visited part of the list with everything started meanwhile in
      front, `todo` the part still to be visited. */
  datatype Pass<Id> = Pass(now: nat, done: seq<Item<Id>>, todo: seq<Item<Id>>)

  function Ids<Id>(items: seq<Item<Id>>): (r: seq<Id>)
    ensures |r| == |items|
    ensures forall i :: 0 <= i < |items| ==> r[i] == items[i].id
  {
    seq(|items|, i requires 0 <= i < |items| => items[i].id)
  }

  ghost predicate Distinct<T>(s: seq<T>) {
    forall i, j :: 0 <= i < j < |s| ==> s[i] != s[j]
  }

  function Drop<Id(==)>(items: seq<Item<Id>>, id: Id): (r: seq<Item<Id>>)
    ensures |r| <= |items|
    ensures forall x :: x in r ==> x in items && x.id != id
    ensures forall x :: x in items && x.id != id ==> x in r
  {
    if items == [] then []
    else if items[0].id == id then Drop(items[1..], id)
    else [items[0]] + Drop(items[1..], id)
  }

  // ---------------------------------------------------------------- one callback

  function ApplyOp<Id(==)>(p: Pass<Id>, op: Op<Id>): Pass<Id> {
    match op
    case Start(id, nticks) => p.(done := [Item(id, p.now + nticks + 1)] + p.done)
    case Stop(id) => p.(done := Drop(p.done, id), todo := Drop(p.todo, id))
  }

  /** A callback of `self` starts only alarms that are not listed, with an interval in range, and not its
      own. */
  ghost predicate OpAllowed<Id>(p: Pass<Id>, self: Id, op: Op<Id>) {
    op.Start? ==>
      op.nticks < WRAP - 1 && op.id != self && (forall x :: x in p.done + p.todo ==> x.id != op.id)
  }

  function RunOps<Id(==)>(p: Pass<Id>, ops: seq<Op<Id>>): (r: Pass<Id>)
    ensures r.now == p.now && |r.todo| <= |p.todo|
    decreases |ops|
  {
    if ops == [] then p else var n := |ops| - 1; ApplyOp(RunOps(p, ops[..n]), ops[n])
  }

  ghost predicate OpsAllowed<Id>(p: Pass<Id>, self: Id, ops: seq<Op<Id>>)
    decreases |ops|
  {
    ops == [] || (var n := |ops| - 1; OpsAllowed(p, self, ops[..n]) && OpAllowed(RunOps(p, ops[..n]), self, ops[n]))
  }

  // ---------------------------------------------------------------- one pass

  function Successor<Id>(todo: seq<Item<Id>>): seq<Id> {
    if |todo| > 1 then [todo[1].id] else []
  }

  /** Which place of the list an alarm has; |items| if it has none. */
  function Place<Id(==)>(items: seq<Item<Id>>, id: Id): (k: nat)
    ensures k <= |items| && (k < |items| ==> items[k].id == id)
    ensures forall i :: 0 <= i < k ==> items[i].id != id
  {
    if items == [] || items[0].id == id then 0 else 1 + Place(items[1..], id)
  }

  ghost predicate Listed<Id>(p: Pass<Id>, id: Id) {
    Place(p.done, id) < |p.done| || Place(p.todo, id) < |p.todo|
  }

  /** What the reply of a callback does: an alarm not stopped by its own callback stays where it is with a
      new deadline, or leaves the list if the reply is 0. */
  function Reply<Id(==)>(q: Pass<Id>, id: Id, reply: Word): Pass<Id> {
    if q.todo != [] && q.todo[0].id == id then
      Pass(q.now, if reply > 0 then q.done + [Item(id, q.now + reply)] else q.done, q.todo[1..])
    else q
  }

  /** The list behind a callback of `id` and the treatment of its reply. */
  function AfterCall<Id(==)>(p: Pass<Id>, id: Id, ops: seq<Op<Id>>, reply: Word): Pass<Id> {
    Reply(RunOps(p, ops), id, reply)
  }

  /** The pass goes on at the alarm that was next in line, even if that now stands in the visited part. */
  function Resume<Id(==)>(r: Pass<Id>, next: seq<Id>): Pass<Id> {
    if next == [] || Place(r.done, next[0]) == |r.done| then r
    else var k := Place(r.done, next[0]); Pass(r.now, r.done[..k], r.done[k..] + r.todo)
  }

  /** The first alarm of `todo` is visited; it is called just when it is due, and when its callback returns,
      the alarm that was next in line is listed. */
  ghost predicate VisitAllowed<Id>(p: Pass<Id>, v: Visit<Id>) {
    && p.todo != [] && v.id == p.todo[0].id
    && (v.Called? <==> p.todo[0].deadline == p.now)
    && (v.Called? ==> OpsAllowed(p, v.id, v.ops) && SuccessorListed(p, v.id, v.ops, v.reply))
  }

  ghost predicate SuccessorListed<Id>(p: Pass<Id>, id: Id, ops: seq<Op<Id>>, reply: Word) {
    Successor(p.todo) == [] || Listed(AfterCall(p, id, ops, reply), Successor(p.todo)[0])
  }

  /** Visiting the first alarm of `todo`. */
  ghost function AfterVisit<Id>(p: Pass<Id>, v: Visit<Id>): Pass<Id>
    requires VisitAllowed(p, v)
  {
    match v
    case NotDue(_) => p.(done := p.done + [p.todo[0]], todo := p.todo[1..])
    case Called(id, ops, reply) => Resume(AfterCall(p, id, ops, reply), Successor(p.todo))
  }

  ghost predicate VisitsAllowed<Id>(p: Pass<Id>, vs: seq<Visit<Id>>)
    decreases |vs|, 0
  {
    vs == [] || (var n := |vs| - 1; VisitsAllowed(p, vs[..n]) && VisitAllowed(AfterVisits(p, vs[..n]), vs[n]))
  }

  ghost function AfterVisits<Id>(p: Pass<Id>, vs: seq<Visit<Id>>): Pass<Id>
    requires VisitsAllowed(p, vs)
    decreases |vs|, 1
  {
    if vs == [] then p else var n := |vs| - 1; AfterVisit(AfterVisits(p, vs[..n]), vs[n])
  }

  lemma VisitsSnoc<Id>(p: Pass<Id>, vs: seq<Visit<Id>>, v: Visit<Id>)
    requires VisitsAllowed(p, vs) && VisitAllowed(AfterVisits(p, vs), v)
    ensures VisitsAllowed(p, vs + [v]) && AfterVisits(p, vs + [v]) == AfterVisit(AfterVisits(p, vs), v)
  {
    assert (vs + [v])[..|vs|] == vs;
  }

  lemma OpsSnoc<Id>(p: Pass<Id>, self: Id, ops: seq<Op<Id>>, op: Op<Id>)
    requires OpsAllowed(p, self, ops) && OpAllowed(RunOps(p, ops), self, op)
    ensures OpsAllowed(p, self, ops + [op])
    ensures RunOps(p, ops + [op]) == ApplyOp(RunOps(p, ops), op)
  {
    assert (ops + [op])[..|ops|] == ops;
  }

  // ---------------------------------------------------------------- runs

  /** The events in the life of the list. */
  datatype Event<Id> = Tick(visits: seq<Visit<Id>>) | Ask(op: Op<Id>)

  ghost function PassOf<Id>(s: Sched<Id>): Pass<Id> { Pass(s.now + 1, [], s.items) }

  ghost predicate EventAllowed<Id>(s: Sched<Id>, e: Event<Id>) {
    match e
    case Tick(vs) => VisitsAllowed(PassOf(s), vs) && AfterVisits(PassOf(s), vs).todo == []
    case Ask(op) => op.Start? ==> op.nticks < WRAP - 1 && forall x :: x in s.items ==> x.id != op.id
  }

  ghost function AfterEvent<Id>(s: Sched<Id>, e: Event<Id>): Sched<Id>
    requires EventAllowed(s, e)
  {
    match e
    case Tick(vs) => Sched(s.now + 1, AfterVisits(PassOf(s), vs).done)
    case Ask(op) => Sched(s.now, ApplyOp(Pass(s.now, s.items, []), op).done)
  }

  ghost predicate EventsAllowed<Id>(s: Sched<Id>, es: seq<Event<Id>>)
    decreases |es|, 0
  {
    es == [] || (var n := |es| - 1; EventsAllowed(s, es[..n]) && EventAllowed(AfterEvents(s, es[..n]), es[n]))
  }

  ghost function AfterEvents<Id>(s: Sched<Id>, es: seq<Event<Id>>): Sched<Id>
    requires EventsAllowed(s, es)
    decreases |es|, 1
  {
    if es == [] then s else var n := |es| - 1; AfterEvent(AfterEvents(s, es[..n]), es[n])
  }

  /** Alarms are listed once and their deadlines lie ahead, by less than one turn of the counter. */
  ghost predicate WellFormed<Id>(s: Sched<Id>) {
    Distinct(Ids(s.items)) && forall x :: x in s.items ==> s.now < x.deadline < s.now + WRAP
  }

  ghost predicate PassFormed<Id>(p: Pass<Id>) {
    && Distinct(Ids(p.done + p.todo))
    && (forall x :: x in p.done ==> p.now < x.deadline < p.now + WRAP)
    && (forall x :: x in p.todo ==> p.now <= x.deadline < p.now + WRAP)
  }

  // ---------------------------------------------------------------- every event keeps the list formed

  lemma {:induction false} DropKeepsDistinct<Id>(items: seq<Item<Id>>, id: Id)
    requires Distinct(Ids(items))
    ensures Distinct(Ids(Drop(items, id)))
  {
    if items == [] {
    } else {
      var rest := items[1..];
      assert forall i :: 0 <= i < |rest| ==> Ids(rest)[i] == Ids(items)[i + 1];
      DropKeepsDistinct(rest, id);
      if items[0].id != id {
        var d := Drop(rest, id);
        forall j | 0 <= j < |d| ensures d[j].id != items[0].id {
          assert d[j] in rest;
          var k :| 0 <= k < |rest| && rest[k] == d[j];
          assert Ids(items)[k + 1] != Ids(items)[0];
        }
      }
    }
  }

  lemma {:induction false} DropOfConcat<Id>(a: seq<Item<Id>>, b: seq<Item<Id>>, id: Id)
    ensures Drop(a + b, id) == Drop(a, id) + Drop(b, id)
  {
    if a == [] {
      assert a + b == b;
    } else {
      assert (a + b)[1..] == a[1..] + b;
      DropOfConcat(a[1..], b, id);
    }
  }

  lemma ConsDistinct<Id>(x: Item<Id>, items: seq<Item<Id>>)
    requires Distinct(Ids(items)) && forall y :: y in items ==> y.id != x.id
    ensures Distinct(Ids([x] + items))
  {
    var all := [x] + items;
    forall i, j | 0 <= i < j < |all| ensures Ids(all)[i] != Ids(all)[j] {
      assert all[j] == items[j - 1];
      if i > 0 {
        assert Ids(items)[i - 1] != Ids(items)[j - 1];
      }
    }
  }

  lemma OpKeepsFormed<Id>(p: Pass<Id>, self: Id, op: Op<Id>)
    requires PassFormed(p) && OpAllowed(p, self, op)
    ensures PassFormed(ApplyOp(p, op))
  {
    var q := ApplyOp(p, op);
    match op
    case Start(id, nticks) =>
      ConsDistinct(Item(id, p.now + nticks + 1), p.done + p.todo);
      assert q.done + q.todo == [Item(id, p.now + nticks + 1)] + (p.done + p.todo);
    case Stop(id) =>
      DropOfConcat(p.done, p.todo, id);
      DropKeepsDistinct(p.done + p.todo, id);
  }

  lemma {:induction false} OpsKeepFormed<Id>(p: Pass<Id>, self: Id, ops: seq<Op<Id>>)
    requires PassFormed(p) && OpsAllowed(p, self, ops)
    ensures PassFormed(RunOps(p, ops))
    decreases |ops|
  {
    if ops == [] {
    } else {
      var n := |ops| - 1;
      OpsKeepFormed(p, self, ops[..n]);
      OpKeepsFormed(RunOps(p, ops[..n]), self, ops[n]);
    }
  }

  lemma SubDistinct<Id>(a: seq<Item<Id>>, x: Item<Id>, b: seq<Item<Id>>, y: Item<Id>)
    requires Distinct(Ids(a + [x] + b)) && y.id == x.id
    ensures Distinct(Ids(a + b)) && Distinct(Ids(a + [y] + b))
  {
    var all := a + [x] + b;
    var less, same := a + b, a + [y] + b;
    forall i, j | 0 <= i < j < |less| ensures Ids(less)[i] != Ids(less)[j] {
      var i', j' := if i < |a| then i else i + 1, if j < |a| then j else j + 1;
      assert Ids(all)[i'] != Ids(all)[j'];
    }
    assert Ids(same) == Ids(all);
  }

  lemma ReplyKeepsFormed<Id>(q: Pass<Id>, id: Id, reply: Word)
    requires PassFormed(q)
    ensures PassFormed(Reply(q, id, reply))
  {
    if q.todo != [] {
      var x, y := q.todo[0], Item(q.todo[0].id, q.now + reply);
      assert q.done + q.todo == q.done + [x] + q.todo[1..];
      SubDistinct(q.done, x, q.todo[1..], y);
    }
  }

  lemma CallKeepsFormed<Id>(p: Pass<Id>, id: Id, ops: seq<Op<Id>>, reply: Word)
    requires PassFormed(p) && OpsAllowed(p, id, ops)
    ensures PassFormed(AfterCall(p, id, ops, reply)) && AfterCall(p, id, ops, reply).now == p.now
  {
    OpsKeepFormed(p, id, ops);
    ReplyKeepsFormed(RunOps(p, ops), id, reply);
  }

  lemma ResumeKeepsList<Id>(r: Pass<Id>, next: seq<Id>)
    ensures Resume(r, next).now == r.now && Resume(r, next).done + Resume(r, next).todo == r.done + r.todo
  {
    if next != [] && Place(r.done, next[0]) < |r.done| {
      var k := Place(r.done, next[0]);
      assert r.done[..k] + (r.done[k..] + r.todo) == r.done + r.todo;
    }
  }

  lemma ResumeMembers<Id>(r: Pass<Id>, next: seq<Id>)
    ensures Resume(r, next).now == r.now
    ensures forall x :: x in Resume(r, next).done ==> x in r.done
    ensures forall x :: x in Resume(r, next).todo ==> x in r.todo || x in r.done
    ensures forall x :: x in r.todo ==> x in Resume(r, next).todo
    ensures forall x :: x in r.done || x in r.todo ==> x in Resume(r, next).done || x in Resume(r, next).todo
  {
  }

  lemma ResumeKeepsFormed<Id>(r: Pass<Id>, next: seq<Id>)
    requires PassFormed(r)
    ensures PassFormed(Resume(r, next))
  {
    ResumeKeepsList(r, next);
    ResumeMembers(r, next);
    hide Resume;
  }

  lemma VisitKeepsFormed<Id>(p: Pass<Id>, v: Visit<Id>)
    requires PassFormed(p) && VisitAllowed(p, v)
    ensures PassFormed(AfterVisit(p, v))
  {
    if v.NotDue? {
      var r := AfterVisit(p, v);
      assert r.done + r.todo == p.done + p.todo;
    } else {
      CallKeepsFormed(p, v.id, v.ops, v.reply);
      ResumeKeepsFormed(AfterCall(p, v.id, v.ops, v.reply), Successor(p.todo));
    }
  }

  lemma {:induction false} VisitsKeepFormed<Id>(p: Pass<Id>, vs: seq<Visit<Id>>)
    requires PassFormed(p) && VisitsAllowed(p, vs)
    ensures PassFormed(AfterVisits(p, vs)) && AfterVisits(p, vs).now == p.now
    decreases |vs|
  {
    if vs == [] {
    } else {
      var n := |vs| - 1;
      VisitsKeepFormed(p, vs[..n]);
      VisitKeepsFormed(AfterVisits(p, vs[..n]), vs[n]);
    }
  }

  lemma EventKeepsFormed<Id>(s: Sched<Id>, e: Event<Id>)
    requires WellFormed(s) && EventAllowed(s, e)
    ensures WellFormed(AfterEvent(s, e))
  {
    match e
    case Tick(vs) =>
      PassOfIsFormed(s);
      VisitsKeepFormed(PassOf(s), vs);
      var end := AfterVisits(PassOf(s), vs);
      assert end.done + end.todo == end.done;
    case Ask(op) =>
      var t := AfterEvent(s, e);
      if op.Start? {
        ConsDistinct(Item(op.id, s.now + op.nticks + 1), s.items);
      } else {
        DropKeepsDistinct(s.items, op.id);
      }
  }

  lemma {:induction false} EventsKeepFormed<Id>(s: Sched<Id>, es: seq<Event<Id>>)
    requires WellFormed(s) && EventsAllowed(s, es)
    ensures WellFormed(AfterEvents(s, es))
    decreases |es|
  {
    if es == [] {
    } else {
      var n := |es| - 1;
      EventsKeepFormed(s, es[..n]);
      EventKeepsFormed(AfterEvents(s, es[..n]), es[n]);
    }
  }

  // ---------------------------------------------------------------- an alarm is called exactly on time

  /** One call of an alarm: the tick it came on and the interval its callback asked for. */
  datatype Call = Call(at: nat, reply: Word)

  ghost function CallsIn<Id>(vs: seq<Visit<Id>>, now: nat, id: Id): seq<Call>
    decreases |vs|
  {
    if vs == [] then []
    else var n := |vs| - 1;
      CallsIn(vs[..n], now, id) + if vs[n].Called? && vs[n].id == id then [Call(now, vs[n].reply)] else []
  }

  /** All calls of alarm `id` during a run, in order. */
  ghost function Calls<Id>(s: Sched<Id>, es: seq<Event<Id>>, id: Id): seq<Call>
    requires EventsAllowed(s, es)
    decreases |es|
  {
    if es == [] then []
    else var n := |es| - 1;
      Calls(s, es[..n], id) + EventCalls(AfterEvents(s, es[..n]), es[n], id)
  }

  ghost predicate VisitEnds<Id>(v: Visit<Id>, id: Id) {
    v.Called? && (Stop(id) in v.ops || (v.id == id && v.reply == 0))
  }

  /** The event neither stops the alarm nor lets it stop itself. */
  ghost predicate Spares<Id>(e: Event<Id>, id: Id) {
    match e
    case Tick(vs) => forall i :: 0 <= i < |vs| ==> !VisitEnds(vs[i], id)
    case Ask(op) => op != Stop(id)
  }

  /** The calls come at `first`, then each exactly the asked interval behind the one before, and `next`
      is where the following one is due. */
  ghost predicate OnTime(calls: seq<Call>, first: nat, next: nat) {
    if calls == [] then next == first
    else
      && calls[0].at == first
      && (forall i :: 0 < i < |calls| ==> calls[i].at == calls[i - 1].at + calls[i - 1].reply)
      && next == calls[|calls| - 1].at + calls[|calls| - 1].reply
  }

  lemma {:induction false} OpsSpare<Id>(p: Pass<Id>, ops: seq<Op<Id>>, x: Item<Id>)
    requires Stop(x.id) !in ops
    ensures x in p.done ==> x in RunOps(p, ops).done
    ensures x in p.todo ==> x in RunOps(p, ops).todo
    ensures p.todo != [] && p.todo[0] == x ==> RunOps(p, ops).todo != [] && RunOps(p, ops).todo[0] == x
    decreases |ops|
  {
    if ops == [] {
    } else {
      var n := |ops| - 1;
      assert ops[n] in ops && forall op :: op in ops[..n] ==> op in ops;
      OpsSpare(p, ops[..n], x);
    }
  }

  /** The item of an alarm that was due at `deadline` when the pass began. */
  ghost function ItemNow<Id>(now: nat, calls: seq<Call>, id: Id, deadline: nat): Item<Id> {
    if calls == [] then Item(id, deadline) else Item(id, now + calls[0].reply)
  }

  ghost predicate Tracked<Id>(q: Pass<Id>, calls: seq<Call>, id: Id, deadline: nat) {
    && (calls == [] || (|calls| == 1 && deadline == q.now == calls[0].at && calls[0].reply > 0))
    && (ItemNow(q.now, calls, id, deadline) in q.done || ItemNow(q.now, calls, id, deadline) in q.todo)
  }

  /** The alarm visited next is listed only there. */
  lemma HeadIsAlone<Id>(p: Pass<Id>)
    requires PassFormed(p) && p.todo != []
    ensures forall x :: x in p.done ==> x.id != p.todo[0].id
    ensures forall x :: x in p.todo[1..] ==> x.id != p.todo[0].id
    ensures forall x :: x in p.todo ==> x == p.todo[0] || x in p.todo[1..]
  {
    var all := p.done + p.todo;
    forall x | x in p.done ensures x.id != p.todo[0].id {
      var i :| 0 <= i < |p.done| && p.done[i] == x;
      assert Ids(all)[i] != Ids(all)[|p.done|];
    }
    forall x | x in p.todo[1..] ensures x.id != p.todo[0].id {
      var i :| 0 <= i < |p.todo[1..]| && p.todo[1..][i] == x;
      assert Ids(all)[|p.done|] != Ids(all)[|p.done| + 1 + i];
    }
    assert p.todo == [p.todo[0]] + p.todo[1..];
  }

  /** The callback of one alarm, and its reply, leave the item of another alarm alone that it does not stop. */
  lemma CallSpares<Id>(p: Pass<Id>, v: Visit<Id>, x: Item<Id>)
    requires v.Called? && v.id != x.id && Stop(x.id) !in v.ops
    ensures var r := AfterCall(p, v.id, v.ops, v.reply);
      (x in p.done ==> x in r.done) && (x in p.todo ==> x in r.todo)
  {
    OpsSpare(p, v.ops, x);
    var q := RunOps(p, v.ops);
    assert q.todo != [] ==> q.todo == [q.todo[0]] + q.todo[1..];
  }

  /** What a call does to one listed alarm that it does not end. */
  lemma CallTracks<Id>(p: Pass<Id>, v: Visit<Id>, x: Item<Id>)
    requires PassFormed(p) && VisitAllowed(p, v) && v.Called? && !VisitEnds(v, x.id)
    requires x in p.done || x in p.todo
    ensures var r := AfterCall(p, v.id, v.ops, v.reply);
      if v.id == x.id then x.deadline == p.now && Item(x.id, p.now + v.reply) in r.done
      else x in r.done || x in r.todo
  {
    HeadIsAlone(p);
    hide PassFormed, OpsAllowed, RunOps;
    if v.id == x.id {
      OpsSpare(p, v.ops, x);
    } else {
      CallSpares(p, v, x);
    }
  }

  lemma PassedOverHasAll<Id>(p: Pass<Id>, v: Visit<Id>)
    requires VisitAllowed(p, v) && v.NotDue?
    ensures forall x :: x in p.done || x in p.todo ==> x in AfterVisit(p, v).done || x in AfterVisit(p, v).todo
  {
    assert p.todo == [p.todo[0]] + p.todo[1..];
  }

  lemma PassedOverTracks<Id>(p: Pass<Id>, v: Visit<Id>, calls: seq<Call>, id: Id, deadline: nat)
    requires VisitAllowed(p, v) && v.NotDue? && Tracked(p, calls, id, deadline)
    ensures Tracked(AfterVisit(p, v), calls, id, deadline)
  {
    PassedOverHasAll(p, v);
  }

  lemma OtherCallTracks<Id>(p: Pass<Id>, v: Visit<Id>, calls: seq<Call>, id: Id, deadline: nat)
    requires PassFormed(p) && VisitAllowed(p, v) && v.Called? && v.id != id && !VisitEnds(v, id)
    requires Tracked(p, calls, id, deadline)
    ensures Tracked(AfterVisit(p, v), calls, id, deadline)
  {
    hide PassFormed;
    CallTracks(p, v, ItemNow(p.now, calls, id, deadline));
    CallNow(p, v);
    ResumeMembers(AfterCall(p, v.id, v.ops, v.reply), Successor(p.todo));
    hide AfterCall, Resume;
  }

  lemma OwnCallTracks<Id>(p: Pass<Id>, v: Visit<Id>, calls: seq<Call>, id: Id, deadline: nat)
    requires PassFormed(p) && VisitAllowed(p, v) && v.Called? && v.id == id && !VisitEnds(v, id)
    requires Tracked(p, calls, id, deadline)
    ensures calls == [] && Tracked(AfterVisit(p, v), [Call(p.now, v.reply)], id, deadline)
  {
    hide PassFormed;
    CallTracks(p, v, ItemNow(p.now, calls, id, deadline));
    CallNow(p, v);
    ResumeMembers(AfterCall(p, v.id, v.ops, v.reply), Successor(p.todo));
    hide AfterCall, Resume;
  }

  lemma VisitTracks<Id>(p: Pass<Id>, v: Visit<Id>, calls: seq<Call>, id: Id, deadline: nat)
    requires PassFormed(p) && VisitAllowed(p, v) && !VisitEnds(v, id)
    requires Tracked(p, calls, id, deadline)
    ensures Tracked(AfterVisit(p, v),
                    calls + if v.Called? && v.id == id then [Call(p.now, v.reply)] else [], id, deadline)
  {
    hide PassFormed, VisitAllowed, AfterVisit, Tracked, VisitEnds;
    assert calls + [] == calls;
    if v.NotDue? {
      PassedOverTracks(p, v, calls, id, deadline);
    } else if v.id != id {
      OtherCallTracks(p, v, calls, id, deadline);
    } else {
      OwnCallTracks(p, v, calls, id, deadline);
      assert calls + [Call(p.now, v.reply)] == [Call(p.now, v.reply)];
    }
  }

  lemma VisitNow<Id>(p: Pass<Id>, v: Visit<Id>)
    requires VisitAllowed(p, v)
    ensures AfterVisit(p, v).now == p.now
  {
  }

  lemma CallNow<Id>(p: Pass<Id>, v: Visit<Id>)
    requires v.Called?
    ensures AfterCall(p, v.id, v.ops, v.reply).now == p.now
  {
  }

  lemma {:induction false} VisitsTrack<Id>(p: Pass<Id>, vs: seq<Visit<Id>>, id: Id, deadline: nat)
    requires PassFormed(p) && VisitsAllowed(p, vs) && Item(id, deadline) in p.todo
    requires forall i :: 0 <= i < |vs| ==> !VisitEnds(vs[i], id)
    ensures Tracked(AfterVisits(p, vs), CallsIn(vs, p.now, id), id, deadline)
    decreases |vs|
  {
    if vs == [] {
    } else {
      var n := |vs| - 1;
      VisitsTrack(p, vs[..n], id, deadline);
      VisitsKeepFormed(p, vs[..n]);
      VisitTracks(AfterVisits(p, vs[..n]), vs[n], CallsIn(vs[..n], p.now, id), id, deadline);
    }
  }

  lemma AskTracks<Id>(s: Sched<Id>, op: Op<Id>, x: Item<Id>)
    requires EventAllowed(s, Ask(op)) && op != Stop(x.id) && x in s.items
    ensures x in AfterEvent(s, Ask(op)).items
  {
  }

  lemma EventTracks<Id>(s: Sched<Id>, e: Event<Id>, id: Id, due: nat) returns (next: nat)
    requires WellFormed(s) && EventAllowed(s, e) && Spares(e, id) && Item(id, due) in s.items
    ensures Item(id, next) in AfterEvent(s, e).items
    ensures OnTime(EventCalls(s, e, id), due, next)
  {
    hide WellFormed, VisitsAllowed, AfterVisits, CallsIn, VisitEnds;
    next := due;
    match e
    case Tick(vs) =>
      hide OnTime;
      next := TickTracks(s, vs, id, due);
    case Ask(op) => AskTracks(s, op, Item(id, due));
  }

  ghost function EventCalls<Id>(s: Sched<Id>, e: Event<Id>, id: Id): seq<Call> {
    if e.Tick? then CallsIn(e.visits, s.now + 1, id) else []
  }

  lemma PassOfIsFormed<Id>(s: Sched<Id>)
    requires WellFormed(s)
    ensures PassFormed(PassOf(s))
  {
    assert [] + s.items == s.items;
  }

  lemma TrackedToEnd<Id>(q: Pass<Id>, calls: seq<Call>, id: Id, due: nat) returns (next: nat)
    requires Tracked(q, calls, id, due) && q.todo == []
    ensures Item(id, next) in q.done && OnTime(calls, due, next)
  {
    next := if calls == [] then due else q.now + calls[0].reply;
  }

  lemma TickTracks<Id>(s: Sched<Id>, vs: seq<Visit<Id>>, id: Id, due: nat) returns (next: nat)
    requires WellFormed(s) && EventAllowed(s, Tick(vs)) && Item(id, due) in s.items
    requires forall i :: 0 <= i < |vs| ==> !VisitEnds(vs[i], id)
    ensures Item(id, next) in AfterVisits(PassOf(s), vs).done
    ensures OnTime(CallsIn(vs, s.now + 1, id), due, next)
  {
    hide AfterVisits, VisitsAllowed, PassFormed, WellFormed, CallsIn, Tracked, OnTime, VisitEnds;
    PassOfIsFormed(s);
    VisitsTrack(PassOf(s), vs, id, due);
    next := TrackedToEnd(AfterVisits(PassOf(s), vs), CallsIn(vs, s.now + 1, id), id, due);
  }

  lemma OnTimeAppend(calls: seq<Call>, more: seq<Call>, first: nat, mid: nat, next: nat)
    requires OnTime(calls, first, mid) && OnTime(more, mid, next)
    ensures OnTime(calls + more, first, next)
  {
    var all := calls + more;
    if calls == [] {
      assert all == more;
    } else if more == [] {
      assert all == calls;
    } else {
      forall i | 0 < i < |all| ensures all[i].at == all[i - 1].at + all[i - 1].reply {
        if i < |calls| {
          assert all[i] == calls[i] && all[i - 1] == calls[i - 1];
        } else if i > |calls| {
          assert all[i] == more[i - |calls|] && all[i - 1] == more[i - |calls| - 1];
        }
      }
    }
  }

  /** Over every run of any length: as long as an alarm is not stopped, it is called at its deadline,
      then exactly as many ticks later as each callback asked for, and never in between or besides. */
  lemma {:induction false} AlarmsComeOnTime<Id>(s: Sched<Id>, es: seq<Event<Id>>, id: Id, due: nat)
    returns (next: nat)
    requires WellFormed(s) && EventsAllowed(s, es) && Item(id, due) in s.items
    requires forall i :: 0 <= i < |es| ==> Spares(es[i], id)
    ensures WellFormed(AfterEvents(s, es)) && Item(id, next) in AfterEvents(s, es).items
    ensures OnTime(Calls(s, es, id), due, next)
    ensures AfterEvents(s, es).now < next
    decreases |es|
  {
    if es == [] {
      next := due;
    } else {
      hide AfterEvent, EventAllowed, OnTime, Spares, EventCalls, Distinct;
      var n := |es| - 1;
      var mid := AlarmsComeOnTime(s, es[..n], id, due);
      var before := AfterEvents(s, es[..n]);
      next := EventTracks(before, es[n], id, mid);
      OnTimeAppend(Calls(s, es[..n], id), EventCalls(before, es[n], id), due, mid, next);
      EventKeepsFormed(before, es[n]);
    }
  }

  /** In particular an alarm started with `nticks` comes for the first time nticks + 1 ticks later. */
  lemma StartedAlarmComesOnTime<Id>(s: Sched<Id>, id: Id, nticks: Word, es: seq<Event<Id>>) returns (next: nat)
    requires WellFormed(s) && EventAllowed(s, Ask(Start(id, nticks)))
    requires EventsAllowed(AfterEvent(s, Ask(Start(id, nticks))), es)
    requires forall i :: 0 <= i < |es| ==> Spares(es[i], id)
    ensures OnTime(Calls(AfterEvent(s, Ask(Start(id, nticks))), es, id), s.now + nticks + 1, next)
    ensures AfterEvents(AfterEvent(s, Ask(Start(id, nticks))), es).now < next
  {
    var started := AfterEvent(s, Ask(Start(id, nticks)));
    EventKeepsFormed(s, Ask(Start(id, nticks)));
    assert Item(id, s.now + nticks + 1) in started.items;
    hide WellFormed, AfterEvent;
    next := AlarmsComeOnTime(started, es, id, s.now + nticks + 1);
  }

  // ---------------------------------------------------------------- an alarm that is not listed is not called

  ghost predicate NeverStarted<Id>(ops: seq<Op<Id>>, id: Id) {
    forall op :: op in ops && op.Start? ==> op.id != id
  }

  /** Nobody starts the alarm. */
  ghost predicate LeavesOut<Id>(e: Event<Id>, id: Id) {
    match e
    case Tick(vs) => forall v :: v in vs && v.Called? ==> NeverStarted(v.ops, id)
    case Ask(op) => op.Start? ==> op.id != id
  }

  ghost predicate Without<Id>(p: Pass<Id>, id: Id) {
    (forall x :: x in p.done ==> x.id != id) && (forall x :: x in p.todo ==> x.id != id)
  }

  lemma {:induction false} OpsLeaveOut<Id>(p: Pass<Id>, ops: seq<Op<Id>>, id: Id)
    requires Without(p, id) && NeverStarted(ops, id)
    ensures Without(RunOps(p, ops), id)
    decreases |ops|
  {
    if ops != [] {
      var n := |ops| - 1;
      assert ops[n] in ops && forall op :: op in ops[..n] ==> op in ops;
      OpsLeaveOut(p, ops[..n], id);
    }
  }

  lemma VisitLeavesOut<Id>(p: Pass<Id>, v: Visit<Id>, id: Id)
    requires Without(p, id) && VisitAllowed(p, v) && (v.Called? ==> NeverStarted(v.ops, id))
    ensures Without(AfterVisit(p, v), id) && v.id != id
  {
    assert p.todo[0] in p.todo;
    if v.Called? {
      OpsLeaveOut(p, v.ops, id);
      var q := RunOps(p, v.ops);
      assert q.todo != [] ==> q.todo[0] in q.todo;
      assert Without(AfterCall(p, v.id, v.ops, v.reply), id);
      hide RunOps, AfterCall, OpsAllowed;
    }
  }

  lemma {:induction false} VisitsLeaveOut<Id>(p: Pass<Id>, vs: seq<Visit<Id>>, id: Id)
    requires Without(p, id) && VisitsAllowed(p, vs) && forall v :: v in vs && v.Called? ==> NeverStarted(v.ops, id)
    ensures Without(AfterVisits(p, vs), id) && CallsIn(vs, p.now, id) == []
    decreases |vs|
  {
    if vs != [] {
      hide Without, VisitAllowed, AfterVisit, NeverStarted;
      var n := |vs| - 1;
      assert vs[n] in vs;
      VisitsLeaveOut(p, vs[..n], id);
      VisitLeavesOut(AfterVisits(p, vs[..n]), vs[n], id);
    }
  }

  lemma EventLeavesOut<Id>(s: Sched<Id>, e: Event<Id>, id: Id)
    requires EventAllowed(s, e) && LeavesOut(e, id) && forall x :: x in s.items ==> x.id != id
    ensures EventCalls(s, e, id) == [] && forall x :: x in AfterEvent(s, e).items ==> x.id != id
  {
    if e.Tick? {
      VisitsLeaveOut(PassOf(s), e.visits, id);
    }
  }

  /** In every run: as long as nobody starts an alarm that is not listed, it is neither called nor listed. */
  lemma {:induction false} UnlistedIsSilent<Id>(s: Sched<Id>, es: seq<Event<Id>>, id: Id)
    requires EventsAllowed(s, es) && (forall e :: e in es ==> LeavesOut(e, id))
    requires forall x :: x in s.items ==> x.id != id
    ensures Calls(s, es, id) == [] && forall x :: x in AfterEvents(s, es).items ==> x.id != id
    decreases |es|
  {
    if es != [] {
      hide EventAllowed, AfterEvent, LeavesOut;
      var n := |es| - 1;
      assert es[n] in es;
      UnlistedIsSilent(s, es[..n], id);
      EventLeavesOut(AfterEvents(s, es[..n]), es[n], id);
    }
  }

  /** So an alarm that was stopped stays silent until it is started again. */
  lemma StoppedAlarmIsSilent<Id>(s: Sched<Id>, id: Id, es: seq<Event<Id>>)
    requires EventsAllowed(AfterEvent(s, Ask(Stop(id))), es) && forall e :: e in es ==> LeavesOut(e, id)
    ensures Calls(AfterEvent(s, Ask(Stop(id))), es, id) == []
  {
    UnlistedIsSilent(AfterEvent(s, Ask(Stop(id))), es, id);
  }

  // ---------------------------------------------------------------- what one pass visits

  function VisitIds<Id>(vs: seq<Visit<Id>>): (r: seq<Id>)
    ensures |r| == |vs| && forall i :: 0 <= i < |vs| ==> r[i] == vs[i].id
  {
    seq(|vs|, i requires 0 <= i < |vs| => vs[i].id)
  }

  ghost predicate StoppedIn<Id>(vs: seq<Visit<Id>>, id: Id) {
    exists v :: v in vs && v.Called? && Stop(id) in v.ops
  }

  lemma {:induction false} OpsOnlyShrinkTodo<Id>(p: Pass<Id>, ops: seq<Op<Id>>)
    ensures forall x :: x in RunOps(p, ops).todo ==> x in p.todo
    decreases |ops|
  {
    if ops == [] {
    } else {
      OpsOnlyShrinkTodo(p, ops[..|ops| - 1]);
    }
  }

  /** During its callback an alarm, and the one behind it, keep their places at the front of what is still
      to be visited, unless they are stopped. */
  ghost predicate Front<Id>(before: seq<Item<Id>>, after: seq<Item<Id>>) {
    && before != []
    && (before[0] in after ==> after[0] == before[0])
    && (|before| > 1 && before[1] in after ==>
         after[0] == before[1] || (|after| > 1 && after[0] == before[0] && after[1] == before[1]))
  }

  lemma DropKeepsFront<Id>(before: seq<Item<Id>>, mid: seq<Item<Id>>, id: Id)
    requires Front(before, mid)
    ensures Front(before, Drop(mid, id))
  {
    if mid != [] && |mid| > 1 {
      assert mid[1..][0] == mid[1];
    }
  }

  lemma {:induction false} OpsKeepFront<Id>(p: Pass<Id>, ops: seq<Op<Id>>)
    requires p.todo != []
    ensures Front(p.todo, RunOps(p, ops).todo)
    decreases |ops|
  {
    if ops == [] {
    } else {
      hide Front;
      var n := |ops| - 1;
      OpsKeepFront(p, ops[..n]);
      if ops[n].Stop? {
        DropKeepsFront(p.todo, RunOps(p, ops[..n]).todo, ops[n].id);
      }
    }
  }

  lemma {:induction false} OpsShrink<Id>(p: Pass<Id>, ops: seq<Op<Id>>)
    requires p.todo != []
    ensures var q := RunOps(p, ops); (q.todo != [] && q.todo[0] == p.todo[0]) || |q.todo| < |p.todo|
    decreases |ops|
  {
    if ops == [] {
    } else {
      OpsShrink(p, ops[..|ops| - 1]);
    }
  }

  /** A call takes its own alarm out of what is still to be visited, and nothing else but what it stops. */
  lemma CallTakesOne<Id>(p: Pass<Id>, v: Visit<Id>)
    requires PassFormed(p) && p.todo != [] && v.Called? && v.id == p.todo[0].id && OpsAllowed(p, v.id, v.ops)
    ensures var r := AfterCall(p, v.id, v.ops, v.reply);
      && (forall x :: x in r.todo ==> x in p.todo && x.id != v.id)
      && (forall x :: x in p.todo && x.id != v.id && Stop(x.id) !in v.ops ==> x in r.todo)
      && (forall x :: x in r.todo && |p.todo| > 1 && x == p.todo[1] ==> r.todo[0] == x)
      && |r.todo| < |p.todo|
  {
    OpsShrink(p, v.ops);
    var q, r := RunOps(p, v.ops), AfterCall(p, v.id, v.ops, v.reply);
    OpsOnlyShrinkTodo(p, v.ops);
    OpsKeepFront(p, v.ops);
    OpsKeepFormed(p, v.id, v.ops);
    HeadIsAlone(p);
    if q.todo != [] {
      HeadIsAlone(q);
      assert q.todo[0] in q.todo;
    }
    forall x | x in p.todo && x.id != v.id && Stop(x.id) !in v.ops ensures x in r.todo {
      CallSpares(p, v, x);
    }
    assert forall x :: x in r.todo ==> x in q.todo;
    assert p.todo[0] in q.todo ==> q.todo[0].id == v.id;
  }

  /** The pass goes on at the alarm that was next in line. */
  lemma GoesOnAtSuccessor<Id>(p: Pass<Id>, v: Visit<Id>)
    requires PassFormed(p) && VisitAllowed(p, v)
    ensures var q := AfterVisit(p, v);
      if |p.todo| == 1 then q.todo == [] else q.todo != [] && q.todo[0].id == p.todo[1].id
  {
    if v.Called? {
      var r := AfterCall(p, v.id, v.ops, v.reply);
      CallTakesOne(p, v);
      HeadIsAlone(p);
      hide AfterCall, OpsAllowed;
      if |p.todo| > 1 && Place(r.done, p.todo[1].id) == |r.done| {
        var x := r.todo[Place(r.todo, p.todo[1].id)];
        assert x in r.todo;
        SameIdSame(p, x, 1);
      }
    }
  }

  /** A callback may stop the alarm that is next in line and start it again: the pass goes on there, through the
      alarms already visited. */
  lemma RestartIsSurvived<Id>(p: Pass<Id>, v: Visit<Id>, nticks: Word)
    requires PassFormed(p) && |p.todo| > 1 && p.todo[0].deadline == p.now && nticks < WRAP - 1
    requires v.Called? && v.id == p.todo[0].id && v.ops == [Stop(p.todo[1].id), Start(p.todo[1].id, nticks)]
    ensures VisitAllowed(p, v)
    ensures AfterVisit(p, v).done == []
      && AfterVisit(p, v).todo[..1] == [Item(p.todo[1].id, p.now + nticks + 1)]
  {
    HeadIsAlone(p);
    assert p.todo[1] == p.todo[1..][0];
    hide PassFormed;
    RestartOps(p, v.id, p.todo[1].id, nticks);
    hide OpsAllowed, RunOps, Drop;
    var r := RunOps(p, v.ops);
    assert r.done[0].id == p.todo[1].id;
    assert Place(r.done, p.todo[1].id) == 0;
  }

  /** A callback that stops the alarm that is next in line and leaves it so is no visit of the scheduler, whatever
      it replies. */
  lemma StopLosesSuccessor<Id>(p: Pass<Id>, v: Visit<Id>)
    requires PassFormed(p) && |p.todo| > 1 && p.todo[0].deadline == p.now
    requires v.Called? && v.id == p.todo[0].id && v.ops == [Stop(p.todo[1].id)]
    ensures OpsAllowed(p, v.id, v.ops) && !SuccessorListed(p, v.id, v.ops, v.reply)
  {
    var id := p.todo[1].id;
    HeadIsAlone(p);
    assert p.todo[1] == p.todo[1..][0];
    hide PassFormed;
    assert OpsAllowed(p, v.id, []) && RunOps(p, []) == p;
    OpsSnoc(p, v.id, [], Stop(id));
    assert [] + [Stop(id)] == v.ops;
    hide RunOps, OpsAllowed, Drop;
    var r := AfterCall(p, v.id, v.ops, v.reply);
    forall x | x in r.done || x in r.todo ensures x.id != id {
      assert x in RunOps(p, v.ops).done || x in RunOps(p, v.ops).todo || x.id == v.id;
    }
    hide AfterCall;
    NotPlaced(r, id);
  }

  lemma NotPlaced<Id>(r: Pass<Id>, id: Id)
    requires (forall x :: x in r.done ==> x.id != id) && (forall x :: x in r.todo ==> x.id != id)
    ensures !Listed(r, id)
  {
    PlaceFinds(r.done, id);
    PlaceFinds(r.todo, id);
  }

  lemma PlaceFinds<Id>(items: seq<Item<Id>>, id: Id)
    ensures Place(items, id) < |items| <==> exists x :: x in items && x.id == id
  {
    var k := Place(items, id);
    assert k < |items| ==> items[k] in items;
  }

  /** It happens: two alarms started before the first tick, both due at it, and the one started last stops the
      other. */
  lemma SuccessorGetsLost<Id>(a: Id, b: Id, reply: Word)
    requires a != b
    ensures var es: seq<Event<Id>> := [Ask(Start(b, 0)), Ask(Start(a, 0))];
      && EventsAllowed(Sched(0, []), es)
      && AfterEvents(Sched(0, []), es) == Sched(0, [Item(a, 1), Item(b, 1)])
    ensures var p := PassOf(Sched(0, [Item(a, 1), Item(b, 1)]));
      && PassFormed(p) && p.todo[0].deadline == p.now && Successor(p.todo) == [b]
      && OpsAllowed(p, a, [Stop(b)]) && !SuccessorListed(p, a, [Stop(b)], reply)
  {
    var none: Sched<Id> := Sched(0, []);
    var es: seq<Event<Id>> := [Ask(Start(b, 0)), Ask(Start(a, 0))];
    assert es[..1] == [es[0]] && [es[0]][..0] == [];
    assert EventsAllowed(none, []) && AfterEvents(none, []) == none;
    assert EventsAllowed(none, [es[0]]) && AfterEvents(none, [es[0]]) == Sched(0, [Item(b, 1)]);
    assert EventsAllowed(none, es) && AfterEvents(none, es) == Sched(0, [Item(a, 1), Item(b, 1)]);
    PassOfIsFormed(Sched(0, [Item(a, 1), Item(b, 1)]));
    StopLosesSuccessor(PassOf(Sched(0, [Item(a, 1), Item(b, 1)])), Called(a, [Stop(b)], reply));
  }

  lemma RestartOps<Id>(p: Pass<Id>, self: Id, id: Id, nticks: Word)
    requires id != self && nticks < WRAP - 1
    ensures var ops := [Stop(id), Start(id, nticks)];
      && OpsAllowed(p, self, ops)
      && RunOps(p, ops).done == [Item(id, p.now + nticks + 1)] + Drop(p.done, id)
      && RunOps(p, ops).todo == Drop(p.todo, id)
  {
    var stop, start := Stop(id), Start(id, nticks);
    assert OpsAllowed(p, self, []) && RunOps(p, []) == p;
    assert [] + [stop] == [stop] && [stop] + [start] == [stop, start];
    hide OpsAllowed, RunOps, Drop;
    OpsSnoc(p, self, [], stop);
    OpsSnoc(p, self, [stop], start);
  }

  lemma SameIdSame<Id>(p: Pass<Id>, x: Item<Id>, k: nat)
    requires PassFormed(p) && x in p.todo && k < |p.todo| && x.id == p.todo[k].id
    ensures x == p.todo[k]
  {
    var i :| 0 <= i < |p.todo| && p.todo[i] == x;
    var all := p.done + p.todo;
    assert Ids(all)[|p.done| + i] == Ids(all)[|p.done| + k];
  }

  /** The alarms still due in the pass. */
  ghost function StillDue<Id>(p: Pass<Id>): set<Item<Id>> {
    set x | x in p.todo && x.deadline == p.now
  }

  /** What a visit does to the alarms that are still due: a called one is due no more, no other one becomes due,
      and only what the callback stops is lost. */
  lemma VisitSettlesOne<Id>(p: Pass<Id>, v: Visit<Id>)
    requires PassFormed(p) && VisitAllowed(p, v)
    ensures var q := AfterVisit(p, v);
      && q.now == p.now
      && (forall x :: x in StillDue(q) ==> x in StillDue(p) && (v.Called? ==> x.id != v.id))
      && (forall x :: x in StillDue(p) && !(v.Called? && (x.id == v.id || Stop(x.id) in v.ops)) ==> x in StillDue(q))
  {
    HeadIsAlone(p);
    if v.Called? {
      var r := AfterCall(p, v.id, v.ops, v.reply);
      CallTakesOne(p, v);
      CallKeepsFormed(p, v.id, v.ops, v.reply);
      ResumeMembers(r, Successor(p.todo));
      hide Resume, AfterCall, OpsAllowed, Ids;
    } else {
      assert p.todo == [p.todo[0]] + p.todo[1..];
    }
  }

  /** Every visit brings the pass nearer to its end: a call leaves fewer alarms due, any other visit leaves the
      same due and less to visit. */
  lemma VisitsEnd<Id>(p: Pass<Id>, v: Visit<Id>)
    requires PassFormed(p) && VisitAllowed(p, v)
    ensures var q := AfterVisit(p, v);
      StillDue(q) < StillDue(p) || (StillDue(q) == StillDue(p) && |q.todo| < |p.todo|)
  {
    VisitSettlesOne(p, v);
    assert p.todo[0] in p.todo;
    if v.Called? {
      assert p.todo[0] in StillDue(p) && p.todo[0] !in StillDue(AfterVisit(p, v));
    }
  }

  function CalledIds<Id>(vs: seq<Visit<Id>>): seq<Id>
    decreases |vs|
  {
    if vs == [] then []
    else var n := |vs| - 1; CalledIds(vs[..n]) + if vs[n].Called? then [vs[n].id] else []
  }

  /** The pass over `p` has made the visits `vs` and stands at `q`: only alarms that were due when it began have
      been called, none of them twice, and every other one is still due or was stopped by a callback. */
  ghost predicate CalledOnce<Id>(p: Pass<Id>, vs: seq<Visit<Id>>, q: Pass<Id>) {
    && Distinct(CalledIds(vs))
    && (forall id :: id in CalledIds(vs) ==> Item(id, p.now) in StillDue(p))
    && (forall x :: x in StillDue(q) ==> x in StillDue(p) && x.id !in CalledIds(vs))
    && (forall x :: x in StillDue(p) ==> x in StillDue(q) || x.id in CalledIds(vs) || StoppedIn(vs, x.id))
  }

  lemma StoppedLater<Id>(vs: seq<Visit<Id>>, v: Visit<Id>, id: Id)
    ensures StoppedIn(vs, id) || StoppedIn([v], id) || (v.Called? && Stop(id) in v.ops) ==> StoppedIn(vs + [v], id)
  {
    assert v in vs + [v] && forall w :: w in vs || w in [v] ==> w in vs + [v];
  }

  lemma OneMoreCall<Id>(p: Pass<Id>, vs: seq<Visit<Id>>, mid: Pass<Id>, v: Visit<Id>)
    requires CalledOnce(p, vs, mid) && PassFormed(mid) && VisitAllowed(mid, v) && mid.now == p.now
    ensures CalledOnce(p, vs + [v], AfterVisit(mid, v))
  {
    hide PassFormed, VisitAllowed, AfterVisit, StillDue, StoppedIn, Distinct, CalledIds;
    VisitSettlesOne(mid, v);
    CalledSnoc(vs, v);
    var q := AfterVisit(mid, v);
    if v.NotDue? {
      assert StillDue(q) == StillDue(mid);
    } else {
      CalledIsDue(mid, v);
      DistinctSnoc(CalledIds(vs), v.id);
    }
    forall x | x in StillDue(p)
      ensures x in StillDue(q) || x.id in CalledIds(vs + [v]) || StoppedIn(vs + [v], x.id)
    {
      StoppedLater(vs, v, x.id);
    }
  }

  lemma CalledIsDue<Id>(p: Pass<Id>, v: Visit<Id>)
    requires VisitAllowed(p, v) && v.Called?
    ensures Item(v.id, p.now) in StillDue(p)
  {
    assert p.todo[0] in p.todo;
  }

  lemma CalledSnoc<Id>(vs: seq<Visit<Id>>, v: Visit<Id>)
    ensures CalledIds(vs + [v]) == if v.Called? then CalledIds(vs) + [v.id] else CalledIds(vs)
  {
    assert (vs + [v])[..|vs|] == vs;
    assert CalledIds(vs) + [] == CalledIds(vs);
  }

  lemma DistinctSnoc<T>(s: seq<T>, x: T)
    requires Distinct(s) && x !in s
    ensures Distinct(s + [x])
  {
  }

  /** Whatever callbacks start, stop and start again, in every pass. */
  lemma {:induction false} PassCallsOnce<Id>(p: Pass<Id>, vs: seq<Visit<Id>>)
    requires PassFormed(p) && VisitsAllowed(p, vs)
    ensures CalledOnce(p, vs, AfterVisits(p, vs))
    decreases |vs|
  {
    if vs == [] {
      assert CalledIds(vs) == [];
    } else {
      hide CalledOnce, AfterVisit, VisitAllowed, PassFormed;
      var init, v := vs[..|vs| - 1], vs[|vs| - 1];
      PassCallsOnce(p, init);
      VisitsKeepFormed(p, init);
      OneMoreCall(p, init, AfterVisits(p, init), v);
      assert vs == init + [v];
    }
  }

  // ---------------------------------------------------------------- when nobody stops who is next

  ghost predicate Gentle<Id>(p: Pass<Id>, v: Visit<Id>) {
    v.Called? ==> Successor(p.todo) == [] || Stop(Successor(p.todo)[0]) !in v.ops
  }

  /** No callback of the pass stops the alarm that is next in line. */
  ghost predicate AllGentle<Id>(p: Pass<Id>, vs: seq<Visit<Id>>)
    requires VisitsAllowed(p, vs)
    decreases |vs|
  {
    vs == [] || (var n := |vs| - 1; AllGentle(p, vs[..n]) && Gentle(AfterVisits(p, vs[..n]), vs[n]))
  }

  lemma NotInBoth<Id>(r: Pass<Id>, x: Item<Id>)
    requires PassFormed(r) && x in r.todo
    ensures Place(r.done, x.id) == |r.done|
  {
    var i :| 0 <= i < |r.todo| && r.todo[i] == x;
    forall k | 0 <= k < |r.done| ensures r.done[k].id != x.id {
      assert Ids(r.done + r.todo)[k] != Ids(r.done + r.todo)[|r.done| + i];
    }
  }

  lemma GentleStays<Id>(p: Pass<Id>, v: Visit<Id>)
    requires PassFormed(p) && VisitAllowed(p, v) && v.Called? && Gentle(p, v)
    ensures AfterVisit(p, v) == AfterCall(p, v.id, v.ops, v.reply)
  {
    if |p.todo| > 1 {
      var r, x := AfterCall(p, v.id, v.ops, v.reply), p.todo[1];
      CallTakesOne(p, v);
      HeadIsAlone(p);
      assert x == p.todo[1..][0];
      CallKeepsFormed(p, v.id, v.ops, v.reply);
      hide AfterCall, OpsAllowed, PassFormed, VisitAllowed;
      NotInBoth(r, x);
    }
  }

  lemma VisitTakesOne<Id>(p: Pass<Id>, v: Visit<Id>)
    requires PassFormed(p) && VisitAllowed(p, v) && Gentle(p, v)
    ensures forall x :: x in AfterVisit(p, v).todo ==> x in p.todo && x.id != v.id
    ensures forall x :: x in p.todo && x.id != v.id && !StoppedIn([v], x.id) ==> x in AfterVisit(p, v).todo
  {
    HeadIsAlone(p);
    if v.Called? {
      GentleStays(p, v);
      CallTakesOne(p, v);
      assert v in [v];
    }
  }

  /** The pass over `p` has made the visits `vs` and stands at `q`: only alarms that were listed when it
      began were visited, none of them twice, and every other one is still to come or was stopped. */
  ghost predicate VisitedOnce<Id>(p: Pass<Id>, vs: seq<Visit<Id>>, q: Pass<Id>) {
    && Distinct(VisitIds(vs))
    && (forall id :: id in VisitIds(vs) ==> id in Ids(p.todo))
    && (forall x :: x in q.todo ==> x in p.todo && x.id !in VisitIds(vs))
    && (forall x :: x in p.todo ==> x in q.todo || x.id in VisitIds(vs) || StoppedIn(vs, x.id))
  }

  lemma OneMoreVisit<Id>(p: Pass<Id>, vs: seq<Visit<Id>>, mid: Pass<Id>, v: Visit<Id>)
    requires VisitedOnce(p, vs, mid) && PassFormed(mid) && VisitAllowed(mid, v) && Gentle(mid, v)
    ensures VisitedOnce(p, vs + [v], AfterVisit(mid, v))
  {
    VisitTakesOne(mid, v);
    var x := mid.todo[0];
    assert x in mid.todo && x.id == v.id;
    hide AfterVisit, PassFormed, VisitAllowed, Gentle, VisitIds, Ids, Distinct, StoppedIn;
    VisitIdsSnoc(vs, v);
    IdListed(p.todo, x);
    DistinctSnoc(VisitIds(vs), v.id);
    var q := AfterVisit(mid, v);
    forall y | y in p.todo ensures y in q.todo || y.id in VisitIds(vs + [v]) || StoppedIn(vs + [v], y.id) {
      StoppedLater(vs, v, y.id);
    }
  }

  lemma VisitIdsSnoc<Id>(vs: seq<Visit<Id>>, v: Visit<Id>)
    ensures VisitIds(vs + [v]) == VisitIds(vs) + [v.id]
  {
  }

  lemma IdListed<Id>(items: seq<Item<Id>>, x: Item<Id>)
    requires x in items
    ensures x.id in Ids(items)
  {
    var k :| 0 <= k < |items| && items[k] == x;
    assert Ids(items)[k] == x.id;
  }

  /** As long as callbacks leave alone who is next in line, whatever else they start and stop. */
  lemma {:induction false} PassVisitsOnce<Id>(p: Pass<Id>, vs: seq<Visit<Id>>)
    requires PassFormed(p) && VisitsAllowed(p, vs) && AllGentle(p, vs)
    ensures VisitedOnce(p, vs, AfterVisits(p, vs))
    decreases |vs|
  {
    hide VisitedOnce, AfterVisit, VisitAllowed, PassFormed, Gentle;
    if vs == [] {
      NothingVisited(p);
    } else {
      var init, v := vs[..|vs| - 1], vs[|vs| - 1];
      PassVisitsOnce(p, init);
      VisitsKeepFormed(p, init);
      OneMoreVisit(p, init, AfterVisits(p, init), v);
      assert vs == init + [v];
    }
  }

  lemma NothingVisited<Id>(p: Pass<Id>)
    ensures VisitedOnce(p, [], p)
  {
    assert VisitIds<Id>([]) == [];
  }

  // ---------------------------------------------------------------- what one pass leaves

  function OpsOf<Id>(v: Visit<Id>): seq<Op<Id>> { if v.Called? then v.ops else [] }

  lemma Associate<T>(a: seq<T>, b: seq<T>, c: seq<T>)
    ensures (a + b) + c == a + (b + c)
  {
  }

  /** What the callbacks' starts leave in the list: each start puts an alarm in front, each stop takes one out. */
  ghost function StartsLeft<Id>(vs: seq<Visit<Id>>, now: nat): seq<Item<Id>>
    decreases |vs|
  {
    if vs == [] then []
    else var n := |vs| - 1; RunOps(Pass(now, StartsLeft(vs[..n], now), []), OpsOf(vs[n])).done
  }

  /** What becomes of an alarm that was listed when the pass began: gone if a callback stopped it or its own
      replied 0, put off if it replied otherwise, untouched if it was not called. */
  ghost function Fate<Id>(x: Item<Id>, vs: seq<Visit<Id>>, now: nat): seq<Item<Id>> {
    if StoppedIn(vs, x.id) then [] else Answered(x, CallsIn(vs, now, x.id))
  }

  ghost function Answered<Id>(x: Item<Id>, calls: seq<Call>): seq<Item<Id>> {
    if calls == [] then [x]
    else var last := calls[|calls| - 1]; if last.reply > 0 then [Item(x.id, last.at + last.reply)] else []
  }

  ghost function Fates<Id>(items: seq<Item<Id>>, vs: seq<Visit<Id>>, now: nat): seq<Item<Id>> {
    if items == [] then [] else Fate(items[0], vs, now) + Fates(items[1..], vs, now)
  }

  /** The list without the alarms that the operations stop. */
  function Unstopped<Id(==)>(items: seq<Item<Id>>, ops: seq<Op<Id>>): (r: seq<Item<Id>>) {
    if items == [] then []
    else (if Stop(items[0].id) in ops then [] else [items[0]]) + Unstopped(items[1..], ops)
  }

  /** The list behind the reply of alarm `id`. */
  function Replied<Id(==)>(items: seq<Item<Id>>, id: Id, reply: Word, now: nat): (r: seq<Item<Id>>) {
    if items == [] then []
    else (if items[0].id == id then Rearmed(id, reply, now) else [items[0]]) + Replied(items[1..], id, reply, now)
  }

  function Rearmed<Id>(id: Id, reply: Word, now: nat): (r: seq<Item<Id>>) {
    if reply > 0 then [Item(id, now + reply)] else []
  }

  lemma {:induction false} UnstoppedConcat<Id>(a: seq<Item<Id>>, b: seq<Item<Id>>, ops: seq<Op<Id>>)
    ensures Unstopped(a + b, ops) == Unstopped(a, ops) + Unstopped(b, ops)
  {
    if a == [] {
      assert a + b == b;
    } else {
      assert (a + b)[1..] == a[1..] + b;
      UnstoppedConcat(a[1..], b, ops);
    }
  }

  lemma {:induction false} RepliedConcat<Id>(a: seq<Item<Id>>, b: seq<Item<Id>>, id: Id, reply: Word, now: nat)
    ensures Replied(a + b, id, reply, now) == Replied(a, id, reply, now) + Replied(b, id, reply, now)
  {
    if a == [] {
      assert a + b == b;
    } else {
      assert (a + b)[1..] == a[1..] + b;
      RepliedConcat(a[1..], b, id, reply, now);
    }
  }

  lemma {:induction false} RepliedNotListed<Id>(items: seq<Item<Id>>, id: Id, reply: Word, now: nat)
    requires forall x :: x in items ==> x.id != id
    ensures Replied(items, id, reply, now) == items
  {
    if items != [] {
      assert items[0] in items;
      RepliedNotListed(items[1..], id, reply, now);
    }
  }

  lemma {:induction false} UnstoppedSnoc<Id>(items: seq<Item<Id>>, ops: seq<Op<Id>>, op: Op<Id>)
    ensures Unstopped(items, ops + [op])
         == if op.Stop? then Drop(Unstopped(items, ops), op.id) else Unstopped(items, ops)
  {
    if items != [] {
      UnstoppedSnoc(items[1..], ops, op);
      var head := if Stop(items[0].id) in ops then [] else [items[0]];
      if op.Stop? {
        DropOfConcat(head, Unstopped(items[1..], ops), op.id);
      }
    }
  }

  lemma {:induction false} UnstoppedNone<Id>(items: seq<Item<Id>>)
    ensures Unstopped(items, []) == items
  {
    if items != [] {
      UnstoppedNone(items[1..]);
    }
  }

  /** Operations treat what stands behind in the list like a filter and leave what was started in front. */
  lemma {:induction false} OpsOnList<Id>(p: Pass<Id>, ops: seq<Op<Id>>, s: seq<Item<Id>>, o: seq<Item<Id>>)
    requires p.done + p.todo == s + o
    ensures var q := RunOps(p, ops);
      q.done + q.todo == RunOps(Pass(p.now, s, []), ops).done + Unstopped(o, ops)
    decreases |ops|
  {
    if ops == [] {
      UnstoppedNone(o);
    } else {
      hide Unstopped, RunOps, ApplyOp;
      var n := |ops| - 1;
      assert ops == ops[..n] + [ops[n]];
      OpsOnList(p, ops[..n], s, o);
      UnstoppedSnoc(o, ops[..n], ops[n]);
      LastOp(p, ops);
      LastOp(Pass(p.now, s, []), ops);
      OpOnList(RunOps(p, ops[..n]), ops[n], RunOps(Pass(p.now, s, []), ops[..n]), Unstopped(o, ops[..n]));
    }
  }

  lemma LastOp<Id>(p: Pass<Id>, ops: seq<Op<Id>>)
    requires ops != []
    ensures RunOps(p, ops) == ApplyOp(RunOps(p, ops[..|ops| - 1]), ops[|ops| - 1])
  {
  }

  lemma OpOnList<Id>(p: Pass<Id>, op: Op<Id>, s: Pass<Id>, o: seq<Item<Id>>)
    requires p.done + p.todo == s.done + o && s.now == p.now
    ensures var q := ApplyOp(p, op);
      q.done + q.todo == ApplyOp(s, op).done + if op.Stop? then Drop(o, op.id) else o
  {
    if op.Stop? {
      DropOfConcat(p.done, p.todo, op.id);
      DropOfConcat(s.done, o, op.id);
    } else {
      var x := [Item(op.id, p.now + op.nticks + 1)];
      Associate(x, p.done, p.todo);
      Associate(x, s.done, o);
    }
  }

  lemma {:induction false} OwnGone<Id>(p: Pass<Id>, self: Id, ops: seq<Op<Id>>)
    requires OpsAllowed(p, self, ops) && Stop(self) in ops
    ensures forall x :: x in RunOps(p, ops).done ==> x.id != self
    ensures forall x :: x in RunOps(p, ops).todo ==> x.id != self
    decreases |ops|
  {
    var n := |ops| - 1;
    if ops[n] != Stop(self) {
      OwnGone(p, self, ops[..n]);
    }
  }

  /** When its callback returns, the alarm still stands first, or it was stopped and is gone. */
  lemma OwnPlace<Id>(p: Pass<Id>, v: Visit<Id>)
    requires VisitAllowed(p, v) && v.Called?
    ensures var q := RunOps(p, v.ops);
      (q.todo != [] && q.todo[0].id == v.id) || forall x :: x in q.done + q.todo ==> x.id != v.id
  {
    if Stop(v.id) in v.ops {
      OwnGone(p, v.id, v.ops);
    } else {
      OpsSpare(p, v.ops, p.todo[0]);
    }
  }

  /** A callback does not put its own alarm among the started ones. */
  lemma {:induction false} OwnNotStarted<Id>(p: Pass<Id>, self: Id, ops: seq<Op<Id>>, s: Pass<Id>)
    requires OpsAllowed(p, self, ops) && forall x :: x in s.done ==> x.id != self
    ensures forall x :: x in RunOps(s, ops).done ==> x.id != self
    decreases |ops|
  {
    if ops != [] {
      OwnNotStarted(p, self, ops[..|ops| - 1], s);
    }
  }

  lemma {:induction false} OpsStartAhead<Id>(s: Pass<Id>, ops: seq<Op<Id>>)
    requires forall x :: x in s.done ==> x.deadline > s.now
    ensures forall x :: x in RunOps(s, ops).done ==> x.deadline > s.now
    decreases |ops|
  {
    if ops != [] {
      OpsStartAhead(s, ops[..|ops| - 1]);
    }
  }

  lemma {:induction false} StartsAhead<Id>(vs: seq<Visit<Id>>, now: nat)
    ensures forall x :: x in StartsLeft(vs, now) ==> x.deadline > now
    decreases |vs|
  {
    if vs != [] {
      var n := |vs| - 1;
      StartsAhead(vs[..n], now);
      OpsStartAhead(Pass(now, StartsLeft(vs[..n], now), []), OpsOf(vs[n]));
    }
  }

  lemma RepliedAt<Id>(a: seq<Item<Id>>, x: Item<Id>, b: seq<Item<Id>>, reply: Word, now: nat)
    requires (forall y :: y in a ==> y.id != x.id) && forall y :: y in b ==> y.id != x.id
    ensures Replied(a + ([x] + b), x.id, reply, now) == a + (Rearmed(x.id, reply, now) + b)
  {
    RepliedConcat(a, [x] + b, x.id, reply, now);
    RepliedNotListed(a, x.id, reply, now);
    assert ([x] + b)[1..] == b;
    RepliedNotListed(b, x.id, reply, now);
  }

  lemma ReplyOnList<Id>(q: Pass<Id>, id: Id, reply: Word)
    requires PassFormed(q)
    requires (q.todo != [] && q.todo[0].id == id) || forall x :: x in q.done + q.todo ==> x.id != id
    ensures var r := Reply(q, id, reply); r.done + r.todo == Replied(q.done + q.todo, id, reply, q.now)
  {
    if q.todo != [] && q.todo[0].id == id {
      HeadIsAlone(q);
      hide PassFormed, Replied;
      RepliedAt(q.done, q.todo[0], q.todo[1..], reply, q.now);
      assert q.todo == [q.todo[0]] + q.todo[1..];
      Associate(q.done, Rearmed(id, reply, q.now), q.todo[1..]);
      assert q.done + [] == q.done;
    } else {
      RepliedNotListed(q.done + q.todo, id, reply, q.now);
    }
  }

  lemma NotAmongStarted<Id>(p: Pass<Id>, v: Visit<Id>, s: seq<Item<Id>>, o: seq<Item<Id>>)
    requires PassFormed(p) && VisitAllowed(p, v) && v.Called?
    requires p.done + p.todo == s + o && forall x :: x in s ==> x.deadline > p.now
    ensures forall x :: x in s ==> x.id != v.id
  {
    HeadIsAlone(p);
    forall x | x in s ensures x.id != v.id {
      assert x in p.done + p.todo;
    }
  }

  lemma CallOnList<Id>(p: Pass<Id>, v: Visit<Id>, s: seq<Item<Id>>, o: seq<Item<Id>>)
    requires PassFormed(p) && VisitAllowed(p, v) && v.Called?
    requires p.done + p.todo == s + o && forall x :: x in s ==> x.deadline > p.now
    ensures var q := AfterVisit(p, v);
      q.done + q.todo == RunOps(Pass(p.now, s, []), v.ops).done + Replied(Unstopped(o, v.ops), v.id, v.reply, p.now)
  {
    var q, started := RunOps(p, v.ops), RunOps(Pass(p.now, s, []), v.ops).done;
    NotAmongStarted(p, v, s, o);
    OpsKeepFormed(p, v.id, v.ops);
    OwnPlace(p, v);
    OwnNotStarted(p, v.id, v.ops, Pass(p.now, s, []));
    OpsOnList(p, v.ops, s, o);
    ResumeKeepsList(AfterCall(p, v.id, v.ops, v.reply), Successor(p.todo));
    hide RunOps, Replied, Unstopped, PassFormed, OpsAllowed, Resume, Reply;
    ReplyOnList(q, v.id, v.reply);
    RepliedConcat(started, Unstopped(o, v.ops), v.id, v.reply, p.now);
    RepliedNotListed(started, v.id, v.reply, p.now);
  }

  lemma {:induction false} NoCallsOf<Id>(vs: seq<Visit<Id>>, now: nat, id: Id)
    requires id !in CalledIds(vs)
    ensures CallsIn(vs, now, id) == []
    decreases |vs|
  {
    if vs != [] {
      NoCallsOf(vs[..|vs| - 1], now, id);
    }
  }

  lemma StoppedSnoc<Id>(vs: seq<Visit<Id>>, v: Visit<Id>, id: Id)
    ensures StoppedIn(vs + [v], id) <==> StoppedIn(vs, id) || Stop(id) in OpsOf(v)
  {
    if StoppedIn(vs, id) || (v.Called? && Stop(id) in v.ops) {
      StoppedLater(vs, v, id);
    }
  }

  lemma CallsInSnoc<Id>(vs: seq<Visit<Id>>, v: Visit<Id>, now: nat, id: Id)
    ensures CallsIn(vs + [v], now, id)
         == CallsIn(vs, now, id) + if v.Called? && v.id == id then [Call(now, v.reply)] else []
  {
    assert (vs + [v])[..|vs|] == vs;
  }

  lemma FateSnoc<Id>(x: Item<Id>, vs: seq<Visit<Id>>, v: Visit<Id>, now: nat)
    requires v.Called? && v.id !in CalledIds(vs)
    ensures Fate(x, vs + [v], now) == Replied(Unstopped(Fate(x, vs, now), v.ops), v.id, v.reply, now)
  {
    hide CallsIn, StoppedIn, CalledIds, Unstopped, Replied;
    StoppedSnoc(vs, v, x.id);
    CallsInSnoc(vs, v, now, x.id);
    NoCallsOf(vs, now, v.id);
    var calls := CallsIn(vs, now, x.id);
    assert calls + [] == calls;
    NoneReplied(v.ops, v.id, v.reply, now);
    if !StoppedIn(vs, x.id) && Answered(x, calls) != [] {
      OneReplied(Answered(x, calls)[0], v.ops, v.id, v.reply, now);
    }
  }

  lemma NoneReplied<Id>(ops: seq<Op<Id>>, id: Id, reply: Word, now: nat)
    ensures Replied(Unstopped([], ops), id, reply, now) == []
  {
  }

  lemma OneReplied<Id>(x: Item<Id>, ops: seq<Op<Id>>, id: Id, reply: Word, now: nat)
    ensures Replied(Unstopped([x], ops), id, reply, now)
      == if Stop(x.id) in ops then [] else if x.id == id then Rearmed(id, reply, now) else [x]
  {
    assert [x][1..] == [];
    assert Unstopped([x], ops) == if Stop(x.id) in ops then [] else [x];
  }

  lemma {:induction false} FatesSnoc<Id>(items: seq<Item<Id>>, vs: seq<Visit<Id>>, v: Visit<Id>, now: nat)
    requires v.Called? && v.id !in CalledIds(vs)
    ensures Fates(items, vs + [v], now) == Replied(Unstopped(Fates(items, vs, now), v.ops), v.id, v.reply, now)
  {
    if items != [] {
      hide Fate, Unstopped, Replied, CalledIds;
      var f, rest := Fate(items[0], vs, now), Fates(items[1..], vs, now);
      FateSnoc(items[0], vs, v, now);
      FatesSnoc(items[1..], vs, v, now);
      UnstoppedConcat(f, rest, v.ops);
      RepliedConcat(Unstopped(f, v.ops), Unstopped(rest, v.ops), v.id, v.reply, now);
    }
  }

  lemma {:induction false} FatesSame<Id>(items: seq<Item<Id>>, vs: seq<Visit<Id>>, v: Visit<Id>, now: nat)
    requires v.NotDue?
    ensures Fates(items, vs + [v], now) == Fates(items, vs, now)
  {
    if items != [] {
      StoppedSnoc(vs, v, items[0].id);
      CallsInSnoc(vs, v, now, items[0].id);
      assert CallsIn(vs, now, items[0].id) + [] == CallsIn(vs, now, items[0].id);
      FatesSame(items[1..], vs, v, now);
    }
  }

  lemma {:induction false} FatesNone<Id>(items: seq<Item<Id>>, now: nat)
    ensures Fates(items, [], now) == items
  {
    if items != [] {
      FatesNone(items[1..], now);
      assert !StoppedIn([], items[0].id);
    }
  }

  lemma StartsSnoc<Id>(vs: seq<Visit<Id>>, v: Visit<Id>, now: nat)
    ensures StartsLeft(vs + [v], now) == RunOps(Pass(now, StartsLeft(vs, now), []), OpsOf(v)).done
  {
    assert (vs + [v])[..|vs|] == vs;
  }

  /** At every point of every pass the list is what the callbacks' starts left, in front of what became of the
      alarms listed when the pass began, in their old order. */
  ghost predicate Leaves<Id>(now: nat, items: seq<Item<Id>>, vs: seq<Visit<Id>>, q: Pass<Id>) {
    q.now == now && q.done + q.todo == StartsLeft(vs, now) + Fates(items, vs, now)
  }

  lemma VisitLeaves<Id>(now: nat, items: seq<Item<Id>>, vs: seq<Visit<Id>>, mid: Pass<Id>, v: Visit<Id>)
    requires Leaves(now, items, vs, mid) && PassFormed(mid) && VisitAllowed(mid, v)
    requires CalledOnce(Pass(now, [], items), vs, mid)
    ensures Leaves(now, items, vs + [v], AfterVisit(mid, v))
  {
    hide Fates, StartsLeft, CallsIn, CalledIds, Distinct, PassFormed, StillDue;
    VisitKeepsFormed(mid, v);
    StartsSnoc(vs, v, now);
    if v.Called? {
      CalledIsDue(mid, v);
      StartsAhead(vs, now);
      CallOnList(mid, v, StartsLeft(vs, now), Fates(items, vs, now));
      FatesSnoc(items, vs, v, now);
    } else {
      FatesSame(items, vs, v, now);
      assert mid.done + [mid.todo[0]] + mid.todo[1..] == mid.done + mid.todo;
    }
  }

  lemma {:induction false} PassLeaves<Id>(now: nat, items: seq<Item<Id>>, vs: seq<Visit<Id>>)
    requires PassFormed(Pass(now, [], items)) && VisitsAllowed(Pass(now, [], items), vs)
    ensures Leaves(now, items, vs, AfterVisits(Pass(now, [], items), vs))
    decreases |vs|
  {
    hide Leaves, AfterVisit, VisitAllowed, PassFormed, CalledOnce;
    var p := Pass(now, [], items);
    if vs == [] {
      NothingLeaves(now, items);
    } else {
      var init, v := vs[..|vs| - 1], vs[|vs| - 1];
      PassLeaves(now, items, init);
      VisitsKeepFormed(p, init);
      PassCallsOnce(p, init);
      VisitLeaves(now, items, init, AfterVisits(p, init), v);
      assert vs == init + [v];
    }
  }

  lemma NothingLeaves<Id>(now: nat, items: seq<Item<Id>>)
    ensures Leaves(now, items, [], Pass(now, [], items))
  {
    FatesNone(items, now);
  }

  /** What a tick leaves, whatever its callbacks start, stop and start again. */
  lemma TickLeaves<Id>(s: Sched<Id>, vs: seq<Visit<Id>>)
    requires WellFormed(s) && EventAllowed(s, Tick(vs))
    ensures AfterEvent(s, Tick(vs)).items == StartsLeft(vs, s.now + 1) + Fates(s.items, vs, s.now + 1)
  {
    PassOfIsFormed(s);
    PassLeaves(s.now + 1, s.items, vs);
    var q := AfterVisits(PassOf(s), vs);
    assert q.done + [] == q.done;
  }

  // ---------------------------------------------------------------- the order of the visits

  /** The listed alarms that were neither visited nor stopped, in list order. */
  ghost function Ahead<Id>(items: seq<Item<Id>>, vs: seq<Visit<Id>>): seq<Item<Id>> {
    if items == [] then []
    else (if items[0].id in VisitIds(vs) || StoppedIn(vs, items[0].id) then [] else [items[0]]) + Ahead(items[1..], vs)
  }

  lemma {:induction false} AheadSnoc<Id>(items: seq<Item<Id>>, vs: seq<Visit<Id>>, v: Visit<Id>)
    ensures Ahead(items, vs + [v]) == Drop(Unstopped(Ahead(items, vs), OpsOf(v)), v.id)
  {
    if items != [] {
      var x := items[0];
      VisitIdsSnoc(vs, v);
      StoppedSnoc(vs, v, x.id);
      hide VisitIds, StoppedIn;
      AheadSnoc(items[1..], vs, v);
      var head := if x.id in VisitIds(vs) || StoppedIn(vs, x.id) then [] else [x];
      UnstoppedConcat(head, Ahead(items[1..], vs), OpsOf(v));
      DropOfConcat(Unstopped(head, OpsOf(v)), Unstopped(Ahead(items[1..], vs), OpsOf(v)), v.id);
    }
  }

  lemma {:induction false} AheadNone<Id>(items: seq<Item<Id>>)
    ensures Ahead(items, []) == items
  {
    if items != [] {
      AheadNone(items[1..]);
    }
  }

  lemma {:induction false} OpsOnTodo<Id>(p: Pass<Id>, ops: seq<Op<Id>>)
    ensures RunOps(p, ops).todo == Unstopped(p.todo, ops)
    decreases |ops|
  {
    if ops == [] {
      UnstoppedNone(p.todo);
    } else {
      var n := |ops| - 1;
      OpsOnTodo(p, ops[..n]);
      UnstoppedSnoc(p.todo, ops[..n], ops[n]);
      assert ops == ops[..n] + [ops[n]];
    }
  }

  lemma {:induction false} DropNotListed<Id>(items: seq<Item<Id>>, id: Id)
    requires forall x :: x in items ==> x.id != id
    ensures Drop(items, id) == items
  {
    if items != [] {
      assert items[0] in items;
      DropNotListed(items[1..], id);
    }
  }

  /** Whether the alarm visited stays or goes, it is out of what is still to be visited. */
  lemma ReplyOnTodo<Id>(q: Pass<Id>, id: Id, reply: Word)
    requires PassFormed(q)
    requires (q.todo != [] && q.todo[0].id == id) || forall x :: x in q.done + q.todo ==> x.id != id
    ensures Reply(q, id, reply).todo == Drop(q.todo, id)
  {
    if q.todo != [] && q.todo[0].id == id {
      HeadIsAlone(q);
      DropNotListed(q.todo[1..], id);
    } else {
      DropNotListed(q.todo, id);
    }
  }

  lemma VisitOnTodo<Id>(p: Pass<Id>, v: Visit<Id>)
    requires PassFormed(p) && VisitAllowed(p, v) && Gentle(p, v)
    ensures AfterVisit(p, v).todo == Drop(Unstopped(p.todo, OpsOf(v)), v.id)
  {
    if v.Called? {
      OwnPlace(p, v);
      OpsKeepFormed(p, v.id, v.ops);
      GentleStays(p, v);
      OpsOnTodo(p, v.ops);
      hide PassFormed, OpsAllowed, RunOps, Drop;
      ReplyOnTodo(RunOps(p, v.ops), v.id, v.reply);
    } else {
      UnstoppedNone(p.todo);
      HeadIsAlone(p);
      DropNotListed(p.todo[1..], v.id);
    }
  }

  /** Each visit goes to the first listed alarm not yet visited or stopped, and calls it just when it is due. */
  ghost predicate InTurn<Id>(now: nat, items: seq<Item<Id>>, vs: seq<Visit<Id>>) {
    forall i :: 0 <= i < |vs| ==> GoesToFirst(now, Ahead(items, vs[..i]), vs[i])
  }

  ghost predicate GoesToFirst<Id>(now: nat, ahead: seq<Item<Id>>, v: Visit<Id>) {
    ahead != [] && v.id == ahead[0].id && (v.Called? <==> ahead[0].deadline == now)
  }

  lemma InTurnSnoc<Id>(now: nat, items: seq<Item<Id>>, vs: seq<Visit<Id>>, v: Visit<Id>)
    requires InTurn(now, items, vs) && GoesToFirst(now, Ahead(items, vs), v)
    ensures InTurn(now, items, vs + [v])
  {
    hide Ahead, GoesToFirst;
    var all := vs + [v];
    forall i | 0 <= i < |all| ensures GoesToFirst(now, Ahead(items, all[..i]), all[i]) {
      assert all[..i] == if i < |vs| then vs[..i] else vs;
    }
  }

  /** In a pass whose callbacks leave alone who is next in line, the visits follow the list, skipping only what
      was stopped. */
  lemma {:induction false} PassVisitsInOrder<Id>(now: nat, items: seq<Item<Id>>, vs: seq<Visit<Id>>)
    requires PassFormed(Pass(now, [], items)) && VisitsAllowed(Pass(now, [], items), vs)
    requires AllGentle(Pass(now, [], items), vs)
    ensures InTurn(now, items, vs)
    ensures AfterVisits(Pass(now, [], items), vs).todo == Ahead(items, vs)
    decreases |vs|
  {
    if vs == [] {
      AheadNone(items);
    } else {
      var init, v := vs[..|vs| - 1], vs[|vs| - 1];
      var mid := AfterVisits(Pass(now, [], items), init);
      VisitsKeepFormed(Pass(now, [], items), init);
      PassVisitsInOrder(now, items, init);
      hide InTurn, AfterVisit, PassFormed, Ahead, OpsAllowed, SuccessorListed;
      InTurnSnoc(now, items, init, v);
      VisitOnTodo(mid, v);
      AheadSnoc(items, init, v);
      assert vs == init + [v];
    }
  }

  ghost predicate OnlyStarts<Id>(ops: seq<Op<Id>>) { forall op :: op in ops ==> op.Start? }

  lemma {:induction false} StartsAreGentle<Id>(p: Pass<Id>, vs: seq<Visit<Id>>)
    requires VisitsAllowed(p, vs) && forall v :: v in vs ==> OnlyStarts(OpsOf(v))
    ensures AllGentle(p, vs)
    decreases |vs|
  {
    if vs != [] {
      assert vs[|vs| - 1] in vs;
      StartsAreGentle(p, vs[..|vs| - 1]);
    }
  }

  /** Without stops, what is ahead is what was not visited. */
  lemma {:induction false} AheadBehind<Id>(a: seq<Item<Id>>, b: seq<Item<Id>>, vs: seq<Visit<Id>>)
    requires forall x :: x in a ==> x.id in VisitIds(vs)
    requires forall x :: x in b ==> x.id !in VisitIds(vs) && !StoppedIn(vs, x.id)
    ensures Ahead(a + b, vs) == b
  {
    hide StoppedIn, VisitIds;
    if a != [] {
      assert a[0] in a && (a + b)[1..] == a[1..] + b;
      AheadBehind(a[1..], b, vs);
    } else if b != [] {
      assert b[0] in b && a + b == b;
      AheadBehind(a, b[1..], vs);
      assert a + b[1..] == b[1..];
    }
  }

  lemma PrefixSplits<Id>(items: seq<Item<Id>>, vs: seq<Visit<Id>>)
    requires Distinct(Ids(items)) && |vs| <= |items| && VisitIds(vs) == Ids(items)[..|vs|]
    ensures forall x :: x in items[..|vs|] ==> x.id in VisitIds(vs)
    ensures forall x :: x in items[|vs|..] ==> x.id !in VisitIds(vs)
  {
    var n := |vs|;
    assert forall i :: 0 <= i < n ==> VisitIds(vs)[i] == items[..n][i].id;
    assert forall i :: n <= i < |items| ==> Ids(items)[i] == items[n..][i - n].id;
    forall x | x in items[n..] ensures x.id !in VisitIds(vs) {
      var k :| 0 <= k < |items[n..]| && items[n..][k] == x;
      assert forall i :: 0 <= i < n ==> Ids(items)[i] != Ids(items)[n + k];
    }
  }

  /** The visits went to the first alarms of the list, one by one, and called those that were due. */
  ghost predicate Swept<Id>(now: nat, items: seq<Item<Id>>, vs: seq<Visit<Id>>) {
    && |vs| <= |items| && VisitIds(vs) == Ids(items)[..|vs|]
    && forall i :: 0 <= i < |vs| ==> (vs[i].Called? <==> items[i].deadline == now)
  }

  lemma SweptSnoc<Id>(now: nat, items: seq<Item<Id>>, vs: seq<Visit<Id>>, v: Visit<Id>)
    requires Swept(now, items, vs) && GoesToFirst(now, items[|vs|..], v)
    ensures Swept(now, items, vs + [v])
  {
    assert items[|vs|..][0] == items[|vs|];
    OneMoreId(items, vs, v);
  }

  lemma NothingStopped<Id>(vs: seq<Visit<Id>>)
    requires forall v :: v in vs ==> OnlyStarts(OpsOf(v))
    ensures forall id :: !StoppedIn(vs, id)
  {
  }

  lemma SweptAhead<Id>(now: nat, items: seq<Item<Id>>, vs: seq<Visit<Id>>)
    requires Distinct(Ids(items)) && Swept(now, items, vs) && forall v :: v in vs ==> OnlyStarts(OpsOf(v))
    ensures Ahead(items, vs) == items[|vs|..]
  {
    NothingStopped(vs);
    PrefixSplits(items, vs);
    AheadFrom(items, |vs|, vs);
  }

  lemma AheadFrom<Id>(items: seq<Item<Id>>, n: nat, vs: seq<Visit<Id>>)
    requires n <= |items| && forall x :: x in items[..n] ==> x.id in VisitIds(vs)
    requires forall x :: x in items[n..] ==> x.id !in VisitIds(vs) && !StoppedIn(vs, x.id)
    ensures Ahead(items, vs) == items[n..]
  {
    AheadBehind(items[..n], items[n..], vs);
    assert items[..n] + items[n..] == items;
  }

  lemma InTurnPrefix<Id>(now: nat, items: seq<Item<Id>>, vs: seq<Visit<Id>>, v: Visit<Id>)
    requires InTurn(now, items, vs + [v])
    ensures InTurn(now, items, vs) && GoesToFirst(now, Ahead(items, vs), v)
  {
    hide Ahead, GoesToFirst;
    var all := vs + [v];
    assert all[..|vs|] == vs && all[|vs|] == v;
    assert forall i :: 0 <= i < |vs| ==> all[..i] == vs[..i] && all[i] == vs[i];
  }

  lemma {:induction false} NoStopsInOrder<Id>(now: nat, items: seq<Item<Id>>, vs: seq<Visit<Id>>)
    requires Distinct(Ids(items)) && InTurn(now, items, vs) && forall v :: v in vs ==> OnlyStarts(OpsOf(v))
    ensures Swept(now, items, vs)
    decreases |vs|
  {
    if vs == [] {
      assert Ids(items)[..0] == VisitIds<Id>([]);
    } else {
      hide *;
      var init, v := vs[..|vs| - 1], vs[|vs| - 1];
      assert vs == init + [v];
      InTurnPrefix(now, items, init, v);
      NoStopsInOrder(now, items, init);
      SweptAhead(now, items, init);
      SweptSnoc(now, items, init, v);
    }
  }

  lemma OneMoreId<Id>(items: seq<Item<Id>>, vs: seq<Visit<Id>>, v: Visit<Id>)
    requires |vs| < |items| && VisitIds(vs) == Ids(items)[..|vs|] && v.id == items[|vs|].id
    ensures VisitIds(vs + [v]) == Ids(items)[..|vs| + 1]
  {
    assert VisitIds(vs + [v]) == VisitIds(vs) + [v.id];
  }

  /** When callbacks only start alarms, a finished pass has visited every alarm that was listed. */
  lemma FinishedPassVisitsAll<Id>(now: nat, items: seq<Item<Id>>, vs: seq<Visit<Id>>)
    requires PassFormed(Pass(now, [], items))
    requires VisitsAllowed(Pass(now, [], items), vs) && AfterVisits(Pass(now, [], items), vs).todo == []
    requires forall v :: v in vs ==> OnlyStarts(OpsOf(v))
    ensures VisitIds(vs) == Ids(items)
    ensures |vs| == |items| && forall i :: 0 <= i < |vs| ==> (vs[i].Called? <==> items[i].deadline == now)
    ensures AfterVisits(Pass(now, [], items), vs).done == StartsLeft(vs, now) + Fates(items, vs, now)
  {
    var p := Pass(now, [], items);
    assert p.done + p.todo == items;
    PassLeaves(now, items, vs);
    assert AfterVisits(p, vs).done + [] == AfterVisits(p, vs).done;
    StartsAreGentle(p, vs);
    PassVisitsInOrder(now, items, vs);
    NoStopsInOrder(now, items, vs);
    SweptAhead(now, items, vs);
    assert |items[|vs|..]| == |items| - |vs|;
    assert Ids(items)[..|items|] == Ids(items);
  }
}
