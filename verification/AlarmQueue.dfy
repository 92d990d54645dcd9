/**
  alt_alarm_start, alt_alarm_stop and alt_tick on the real fields: a circular linked list of alarms with
  32-bit times and rollover flags, and a 32-bit tick counter. Every call is proved to be one event of the
  deadline scheduler, whose clock does not wrap; so what is proved of all runs of the scheduler, above
  all that alarms come exactly on time, holds of this code over any number of counter wraps.
 */
module AlarmQueue {
  import opened TickArithmetic
  import opened IntrusiveList
  import DS = DeadlineScheduler

  const EINVAL: int := 22
  const ENOTSUP: int := 134

  lemma {:induction false} DropAbsent(items: seq<DS.Item<Entry>>, id: Entry)
    requires forall i :: 0 <= i < |items| ==> items[i].id != id
    ensures DS.Drop(items, id) == items
  {
    if items == [] {
    } else {
      DropAbsent(items[1..], id);
    }
  }

  lemma {:induction false} DropAt(items: seq<DS.Item<Entry>>, k: nat)
    requires k < |items|
    requires forall i :: 0 <= i < |items| && i != k ==> items[i].id != items[k].id
    ensures DS.Drop(items, items[k].id) == items[..k] + items[k + 1..]
    decreases k
  {
    if k == 0 {
      DropAbsent(items[1..], items[0].id);
    } else {
      DropAt(items[1..], k - 1);
      Unsplit(items, k);
    }
  }

  lemma Unsplit<T>(s: seq<T>, k: nat)
    requires 0 < k < |s|
    ensures [s[0]] + (s[1..][..k - 1] + s[1..][k..]) == s[..k] + s[k + 1..]
  {
  }

  lemma DropIds(items: seq<DS.Item<Entry>>, id: Entry)
    requires DS.Distinct(DS.Ids(items))
    ensures var k, ids := DS.Place(items, id), DS.Ids(items);
      DS.Ids(DS.Drop(items, id)) == if k < |ids| then ids[..k] + ids[k + 1..] else ids
  {
    var k, ids := DS.Place(items, id), DS.Ids(items);
    if k < |ids| {
      forall i | 0 <= i < |items| && i != k ensures items[i].id != items[k].id {
        assert ids[i] != ids[k];
      }
      DropAt(items, k);
      IdsOfConcat(items[..k], items[k + 1..]);
      assert DS.Ids(items[..k]) == ids[..k] && DS.Ids(items[k + 1..]) == ids[k + 1..];
    } else {
      DropAbsent(items, id);
    }
  }

  lemma IdsOfConcat(a: seq<DS.Item<Entry>>, b: seq<DS.Item<Entry>>)
    ensures DS.Ids(a + b) == DS.Ids(a) + DS.Ids(b)
  {
  }

  lemma ListedIsId(items: seq<DS.Item<Entry>>, id: Entry)
    ensures id in DS.Ids(items) <==> exists x :: x in items && x.id == id
  {
    if id in DS.Ids(items) {
      var k :| 0 <= k < |items| && DS.Ids(items)[k] == id;
      assert items[k] in items;
    }
    if x :| x in items && x.id == id {
      var k :| 0 <= k < |items| && items[k] == x;
      assert DS.Ids(items)[k] == id;
    }
  }

  /** A callback cannot list the alarm it belongs to again. */
  lemma {:induction false} OpsNeverListSelf(p: DS.Pass<Entry>, self: Entry, ops: seq<DS.Op<Entry>>)
    requires DS.OpsAllowed(p, self, ops) && forall x :: x in p.done ==> x.id != self
    ensures forall x :: x in DS.RunOps(p, ops).done ==> x.id != self
    decreases |ops|
  {
    if ops == [] {
    } else {
      OpsNeverListSelf(p, self, ops[..|ops| - 1]);
    }
  }

  /** Where the loop of alt_tick may stand: at the first alarm still to be visited, or at one that is in no
      list. */
  ghost predicate StandsAt(p: DS.Pass<Entry>, alarm: Entry) {
    AtFirst(p, alarm) || Unlisted(p, alarm)
  }

  ghost predicate AtFirst(p: DS.Pass<Entry>, alarm: Entry) {
    p.todo != [] && p.todo[0].id == alarm
  }

  ghost predicate Unlisted(p: DS.Pass<Entry>, alarm: Entry) {
    (forall x :: x in p.done ==> x.id != alarm) && (forall x :: x in p.todo ==> x.id != alarm)
  }

  /** Where an alarm can be in the list behind its own callback. */
  lemma SelfAhead(p: DS.Pass<Entry>, self: Entry, ops: seq<DS.Op<Entry>>, reply: Word)
    requires DS.PassFormed(p) && StandsAt(p, self) && DS.OpsAllowed(p, self, ops)
    ensures var r, q := DS.RunOps(p, ops), DS.AfterCall(p, self, ops, reply);
      && (forall x :: x in r.done ==> x.id != self)
      && (forall x :: x in q.todo ==> x.id != self)
      && (AtFirst(r, self) ==> AtFirst(p, self))
      && (Unlisted(p, self) ==> Unlisted(q, self))
  {
    DS.OpsOnlyShrinkTodo(p, ops);
    if AtFirst(p, self) {
      DS.HeadIsAlone(p);
      DS.CallTakesOne(p, DS.Called(self, ops, reply));
      assert p.todo[0] in p.todo;
    }
    OpsNeverListSelf(p, self, ops);
    hide DS.PassFormed, DS.OpsAllowed, DS.RunOps;
    var r := DS.RunOps(p, ops);
    assert AtFirst(r, self) ==> r.todo[0] in r.todo;
  }

  /** Stopping an alarm behind its callback is what a reply of 0 means. */
  lemma UnlistedId(p: DS.Pass<Entry>, id: Entry)
    ensures Unlisted(p, id) <==> id !in DS.Ids(p.done + p.todo)
  {
    ListedIsId(p.done + p.todo, id);
    assert forall x :: x in p.done || x in p.todo <==> x in p.done + p.todo;
  }

  lemma PlacedJustWhenListed(p: DS.Pass<Entry>, id: Entry)
    ensures DS.Listed(p, id) <==> !Unlisted(p, id)
  {
    DS.PlaceFinds(p.done, id);
    DS.PlaceFinds(p.todo, id);
  }

  lemma StopIsReplyZero(r: DS.Pass<Entry>, id: Entry)
    requires forall x :: x in r.done ==> x.id != id
    requires forall x :: x in DS.Reply(r, id, 0).todo ==> x.id != id
    ensures DS.ApplyOp(r, DS.Stop(id)) == DS.Reply(r, id, 0)
  {
    DropAbsent(r.done, id);
    DropAbsent(DS.Reply(r, id, 0).todo, id);
  }

  lemma ReplyKeepsIds(r: DS.Pass<Entry>, id: Entry, reply: Word)
    requires reply > 0
    ensures var q := DS.Reply(r, id, reply); DS.Ids(q.done + q.todo) == DS.Ids(r.done + r.todo)
  {
    var q := DS.Reply(r, id, reply);
    var a, b := DS.Ids(q.done + q.todo), DS.Ids(r.done + r.todo);
    assert |a| == |b|;
    assert forall i :: 0 <= i < |a| ==> a[i] == b[i];
  }

  lemma LeftOver(ids: seq<Entry>, k: nat)
    requires k < |ids|
    ensures forall e :: e in ids && e != ids[k] ==> e in ids[..k] + ids[k + 1..]
  {
    var left := ids[..k] + ids[k + 1..];
    forall e | e in ids && e != ids[k] ensures e in left {
      var i :| 0 <= i < |ids| && ids[i] == e;
      assert left[if i < k then i else i - 1] == e;
    }
  }

  lemma StartIds(p: DS.Pass<Entry>, x: DS.Item<Entry>)
    requires forall y :: y in p.done + p.todo ==> y.id != x.id
    ensures DS.Ids(([x] + p.done) + p.todo) == [x.id] + DS.Ids(p.done + p.todo)
    ensures x.id !in DS.Ids(p.done + p.todo)
  {
    ListedIsId(p.done + p.todo, x.id);
    IdsOfConcat([x], p.done + p.todo);
    assert ([x] + p.done) + p.todo == [x] + (p.done + p.todo);
    assert DS.Ids([x]) == [x.id];
  }

  lemma StopIds(p: DS.Pass<Entry>, id: Entry)
    requires DS.PassFormed(p)
    ensures var q, ids := DS.ApplyOp(p, DS.Stop(id)), DS.Ids(p.done + p.todo);
      var k := DS.Place(p.done + p.todo, id);
      && (if k < |ids| then ids[k] == id else id !in ids)
      && DS.Ids(q.done + q.todo) == if k < |ids| then ids[..k] + ids[k + 1..] else ids
  {
    var all := p.done + p.todo;
    NotPlaced(all, id);
    assert DS.Distinct(DS.Ids(all));
    hide DS.PassFormed;
    DropIds(all, id);
    DS.DropOfConcat(p.done, p.todo, id);
    hide DS.Drop, DS.Place;
    assert DS.ApplyOp(p, DS.Stop(id)).done + DS.ApplyOp(p, DS.Stop(id)).todo == DS.Drop(all, id);
  }

  lemma NotPlaced(items: seq<DS.Item<Entry>>, id: Entry)
    ensures DS.Place(items, id) == |items| ==> id !in DS.Ids(items)
  {
    assert DS.Place(items, id) == |items| ==> forall i :: 0 <= i < |items| ==> DS.Ids(items)[i] != id;
  }

  function Fields(e: Entry): Cell
    reads e`time, e`rollover
  {
    Cell(e.time, e.rollover)
  }

  class Queue {
    const head: Entry
    const alarms: set<Entry>       // every alarm structure of the program
    const tickRate: Word           // 0 when there is no system clock
    var nticks: Word
    ghost var sched: DS.Sched<Entry>

    /** The linked list holds exactly these alarms in this order; all others are in no list. */
    ghost predicate Linked(ids: seq<Entry>)
      reads head`next, head`previous, alarms`next, alarms`previous
    {
      && head !in alarms && (forall i :: 0 <= i < |ids| ==> ids[i] in alarms)
      && Ring([head] + ids)
      && (forall a :: a in alarms && a !in ids ==> Detached(a))
    }

    /** A pass over the list stands at `p`: visited and freshly started alarms stand for deadlines seen from
        this tick, the others, except the one whose callback may be running, from this tick or the last. */
    ghost predicate InPass(p: DS.Pass<Entry>, self: Entry)
      reads this`nticks, head`next, head`previous, alarms
    {
      && Shows(nticks, p.now) && (p.now > 0 || p.todo == []) && DS.PassFormed(p)
      && Linked(DS.Ids(p.done + p.todo)) && Timed(p, self)
    }

    ghost predicate Timed(p: DS.Pass<Entry>, self: Entry)
      requires p.now > 0 || p.todo == []
      reads alarms`time, alarms`rollover
    {
      && (forall x :: x in p.done ==> x.id in alarms && Stands(Fields(x.id), x.deadline, p.now))
      && (forall x :: x in p.todo ==> x.id in alarms)
      && (forall x :: x in p.todo && x.id != self ==>
           Stands(Fields(x.id), x.deadline, p.now) || Stands(Fields(x.id), x.deadline, p.now - 1))
    }

    /** Between two calls. */
    ghost predicate Valid()
      reads this, head, alarms
    {
      InPass(DS.Pass(sched.now, sched.items, []), head)
    }

    constructor (alarms0: set<Entry>, rate: Word)
      requires forall a :: a in alarms0 ==> Detached(a)
      ensures Valid() && sched == DS.Sched(0, []) && fresh(head) && alarms == alarms0 && tickRate == rate
    {
      head := new Entry();
      alarms, tickRate := alarms0, rate;
      nticks := 0;
      sched := DS.Sched(0, []);
      new;
      assert DS.Ids<Entry>([]) == [] && [] + sched.items == [];
      assert [head] + [] == [head];
    }

    /** Puts an alarm that is in no list in front. */
    method Link(alarm: Entry, ghost ids: seq<Entry>)
      requires Linked(ids) && alarm in alarms && alarm !in ids
      modifies head`next, head`previous, alarms`next, alarms`previous
      ensures Linked([alarm] + ids)
    {
      hide Ring;
      ghost var c := [head] + ids;
      assert c[1..] == ids;
      Neighbours(c, 0);
      Insert(head, alarm, c);
      assert [head, alarm] + c[1..] == [head] + ([alarm] + ids);
      assert forall e :: e in [alarm] + ids <==> e == alarm || e in ids;
    }

    /** Takes an alarm out of the list, if it is in there; `k` is its place, |ids| if it has none. */
    method Unlink(alarm: Entry, ghost ids: seq<Entry>, ghost k: nat)
      requires Linked(ids) && alarm in alarms && k <= |ids|
      requires if k < |ids| then ids[k] == alarm else alarm !in ids
      modifies head`next, head`previous, alarms`next, alarms`previous
      ensures Linked(if k < |ids| then ids[..k] + ids[k + 1..] else ids) && Detached(alarm)
    {
      hide Ring;
      ghost var c := [head] + ids;
      if k < |ids| {
        Neighbours(c, k + 1);
      }
      Remove(alarm, c, if k < |ids| then k + 1 else 0);
      if k < |ids| {
        ghost var left := ids[..k] + ids[k + 1..];
        assert c[..k + 1] + c[k + 2..] == [head] + left;
        LeftOver(ids, k);
      }
    }

    // -------------------------------------------------------------- start and stop, also from callbacks

    /** The fields of a freshly started alarm. */
    method SetTime(alarm: Entry, interval: Word, ghost p: DS.Pass<Entry>, ghost self: Entry)
      requires (p.now > 0 || p.todo == []) && Timed(p, self) && Shows(nticks, p.now)
      requires alarm in alarms && interval < WRAP - 1 && forall x :: x in p.done + p.todo ==> x.id != alarm
      modifies alarm`time, alarm`rollover
      ensures Timed(DS.ApplyOp(p, DS.Start(alarm, interval)), self)
    {
      var current := nticks;
      alarm.time := (interval + current + 1) % WRAP;
      if alarm.time < current {
        alarm.rollover := true;
      } else {
        alarm.rollover := false;
      }
      StartStands(interval, p.now);
      assert Fields(alarm) == StartCell(interval, current);
      hide Stands, StartCell, Shows;
      assert forall x :: x in p.done ==> x in p.done + p.todo;
      assert forall x :: x in p.todo ==> x in p.done + p.todo;
      assert Timed(p, self);
      StartTimed(p, self, alarm, interval);
    }

    lemma StartTimed(p: DS.Pass<Entry>, self: Entry, alarm: Entry, interval: Word)
      requires (p.now > 0 || p.todo == []) && Timed(p, self)
      requires alarm in alarms && Stands(Fields(alarm), p.now + interval + 1, p.now)
      ensures Timed(DS.ApplyOp(p, DS.Start(alarm, interval)), self)
    {
      hide Stands;
    }

    /** alt_alarm_start. The alarm must not be listed already, and the interval 2^32 - 1 is excluded. */
    method Start(alarm: Entry?, interval: Word, ghost p: DS.Pass<Entry>, ghost self: Entry) returns (rc: int)
      requires InPass(p, self)
      requires alarm != null ==>
        alarm in alarms && DS.OpAllowed(p, self, DS.Start(alarm, interval))
      modifies head`next, head`previous, alarms`next, alarms`previous,
        (set a | a in alarms && a == alarm)`time, (set a | a in alarms && a == alarm)`rollover
      ensures rc == if tickRate == 0 then -ENOTSUP else if alarm == null then -EINVAL else 0
      ensures rc == 0 ==> InPass(DS.ApplyOp(p, DS.Start(alarm, interval)), self)
      ensures rc != 0 ==> InPass(p, self)
    {
      hide Timed, DS.PassFormed, Linked, Shows;
      if tickRate == 0 {
        return -ENOTSUP;
      }
      if alarm == null {
        return -EINVAL;
      }
      DS.OpKeepsFormed(p, self, DS.Start(alarm, interval));
      StartIds(p, DS.Item(alarm as Entry, p.now + interval + 1));
      SetTime(alarm, interval, p, self);
      Link(alarm, DS.Ids(p.done + p.todo));
      return 0;
    }

    lemma TimedAfterStop(p: DS.Pass<Entry>, self: Entry, alarm: Entry)
      requires (p.now > 0 || p.todo == []) && Timed(p, self)
      ensures Timed(DS.ApplyOp(p, DS.Stop(alarm)), self)
    {
    }

    /** alt_alarm_stop. Stopping an alarm that is in no list changes nothing. */
    method Stop(alarm: Entry, ghost p: DS.Pass<Entry>, ghost self: Entry)
      requires InPass(p, self) && alarm in alarms
      modifies head`next, head`previous, alarms`next, alarms`previous
      ensures InPass(DS.ApplyOp(p, DS.Stop(alarm)), self) && Detached(alarm)
    {
      hide Timed, DS.PassFormed, Shows, Linked, DS.Ids, DS.Drop, DS.Place;
      ghost var all := p.done + p.todo;
      ghost var k := DS.Place(all, alarm);
      StopIds(p, alarm);
      TimedAfterStop(p, self, alarm);
      DS.OpKeepsFormed(p, self, DS.Stop(alarm));
      Unlink(alarm, DS.Ids(all), k);
    }

    // -------------------------------------------------------------- the tick

    lemma NextOf(p: DS.Pass<Entry>)
      requires Linked(DS.Ids(p.done + p.todo)) && p.todo != []
      ensures p.todo[0].id.next == if |p.todo| > 1 then p.todo[1].id else head
    {
      var c := [head] + DS.Ids(p.done + p.todo);
      var k := 1 + |p.done|;
      assert c[k] == p.todo[0].id && (|p.todo| > 1 ==> c[k + 1] == p.todo[1].id);
      Neighbours(c, k);
    }

    lemma FirstOf(items: seq<DS.Item<Entry>>)
      requires Linked(DS.Ids(items))
      ensures head.next == if items == [] then head else items[0].id
    {
      Neighbours([head] + DS.Ids(items), 0);
    }

    /** An alarm whose link leads to itself is in no list. */
    lemma SelfLinked(a: Entry, ids: seq<Entry>)
      requires Linked(ids) && a in alarms && a.next == a
      ensures a !in ids
    {
      var c := [head] + ids;
      forall k | 0 <= k < |ids| ensures ids[k].next != ids[k] {
        Neighbours(c, k + 1);
        assert c[k + 1] == ids[k] && c[0] == head;
      }
    }

    /** A callback: it may start and stop any alarms, but does not start its own. */
    method Callback(self: Entry, ghost p0: DS.Pass<Entry>) returns (reply: Word, ghost ops: seq<DS.Op<Entry>>)
      requires InPass(p0, self)
      modifies head`next, head`previous, alarms`next, alarms`previous,
        (alarms - {self})`time, (alarms - {self})`rollover
      ensures DS.OpsAllowed(p0, self, ops) && InPass(DS.RunOps(p0, ops), self)
    {
      ops := [];
      reply := *;
      var steps: nat := *;
      while steps > 0 && alarms != {}
        invariant DS.OpsAllowed(p0, self, ops) && InPass(DS.RunOps(p0, ops), self)
        decreases steps
      {
        ghost var p := DS.RunOps(p0, ops);
        var a :| a in alarms;
        var starting: bool := *;
        if starting {
          var interval: Word := *;
          if a.next == a && a != self && interval < WRAP - 1 && tickRate != 0 {
            SelfLinked(a, DS.Ids(p.done + p.todo));
            ListedIsId(p.done + p.todo, a);
            var _ := Start(a, interval, p, self);
            DS.OpsSnoc(p0, self, ops, DS.Start(a, interval));
            ops := ops + [DS.Start(a, interval)];
          }
        } else {
          Stop(a, p, self);
          DS.OpsSnoc(p0, self, ops, DS.Stop(a));
          ops := ops + [DS.Stop(a)];
        }
        steps := steps - 1;
      }
    }

    /** An alarm that is not due yet: from now on its fields are seen from this tick. */
    lemma PassedOver(p: DS.Pass<Entry>, v: DS.Visit<Entry>)
      requires p.now > 0 && Shows(nticks, p.now) && DS.PassFormed(p) && Linked(DS.Ids(p.done + p.todo))
      requires Timed(p, if p.todo != [] then p.todo[0].id else head)
      requires DS.VisitAllowed(p, v) && v.NotDue?
      requires Stands(Fields(p.todo[0].id), p.todo[0].deadline, p.now)
      ensures InPass(DS.AfterVisit(p, v), head)
    {
      DS.VisitKeepsFormed(p, v);
      DS.HeadIsAlone(p);
      hide DS.PassFormed, Stands, Shows;
      var q := DS.AfterVisit(p, v);
      assert q.done + q.todo == p.done + p.todo;
      assert p.todo == [p.todo[0]] + p.todo[1..];
      hide Linked, Fields;
      assert Timed(q, head);
    }

    lemma ReplyTimed(r: DS.Pass<Entry>, id: Entry, reply: Word)
      requires (r.now > 0 || r.todo == []) && Timed(r, id)
      requires forall x :: x in DS.Reply(r, id, reply).todo ==> x.id != id
      requires reply > 0 && AtFirst(r, id) ==> id in alarms && Stands(Fields(id), r.now + reply, r.now)
      ensures Timed(DS.Reply(r, id, reply), head)
    {
      hide Stands;
    }

    /** The treatment of a callback's reply. */
    method TakeReply(alarm: Entry, reply: Word, ghost p: DS.Pass<Entry>, ghost ops: seq<DS.Op<Entry>>)
      requires DS.PassFormed(p) && p.now > 0 && StandsAt(p, alarm) && alarm in alarms
      requires DS.OpsAllowed(p, alarm, ops) && InPass(DS.RunOps(p, ops), alarm)
      requires AtFirst(p, alarm) ==> alarm.time == nticks && !alarm.rollover
      modifies head`next, head`previous, alarms`next, alarms`previous, alarm`time, alarm`rollover
      ensures InPass(DS.AfterCall(p, alarm, ops, reply), head)
    {
      hide DS.PassFormed, Linked, Shows, Stands, DS.OpsAllowed, StandsAt;
      ghost var r := DS.RunOps(p, ops);
      SelfAhead(p, alarm, ops, reply);
      DS.CallKeepsFormed(p, alarm, ops, reply);
      hide DS.RunOps, DS.Ids, DS.Drop;
      if reply == 0 {
        StopIsReplyZero(r, alarm);
        Stop(alarm, r, alarm);
        ReplyTimed(r, alarm, 0);
      } else {
        ReplyKeepsIds(r, alarm, reply);
        Rearm(alarm, reply, r);
        hide Timed;
      }
    }

    /** The new time of an alarm that is to be called again in `reply` ticks. */
    method Rearm(alarm: Entry, reply: Word, ghost r: DS.Pass<Entry>)
      requires r.now > 0 && Shows(nticks, r.now) && reply > 0 && alarm in alarms
      requires Timed(r, alarm) && (AtFirst(r, alarm) ==> alarm.time == nticks && !alarm.rollover)
      requires forall x :: x in r.done ==> x.id != alarm
      requires forall x :: x in DS.Reply(r, alarm, reply).todo ==> x.id != alarm
      modifies alarm`time, alarm`rollover
      ensures Fields(alarm) == Again(old(Fields(alarm)), reply, nticks)
      ensures Timed(DS.Reply(r, alarm, reply), head)
    {
      if AtFirst(r, alarm) {
        AgainStands(Fields(alarm), reply, r.now);
      }
      alarm.time := (alarm.time + reply) % WRAP;
      if alarm.time < nticks {
        alarm.rollover := true;
      }
      hide Stands, DS.Reply;
      assert Timed(r, alarm);
      ReplyTimed(r, alarm, reply);
    }

    lemma WhereNext(p: DS.Pass<Entry>, alarm: Entry)
      requires Linked(DS.Ids(p.done + p.todo)) && StandsAt(p, alarm) && alarm in alarms
      ensures alarm.next == if Unlisted(p, alarm) then alarm else if |p.todo| > 1 then p.todo[1].id else head
      ensures head !in alarms
    {
      UnlistedId(p, alarm);
      if AtFirst(p, alarm) {
        assert p.todo[0] in p.todo;
        NextOf(p);
      }
    }

    /** Whether the first alarm is due, and what its fields stand for afterwards. */
    lemma FirstDecides(p: DS.Pass<Entry>, alarm: Entry)
      requires InPass(p, head) && p.now > 0 && AtFirst(p, alarm)
      ensures var due, c := p.todo[0].deadline, AtTick(Fields(alarm), nticks);
        && (Expired(c, nticks) <==> due == p.now)
        && (due != p.now ==> Stands(c, due, p.now))
        && (due == p.now ==> c.time == nticks)
    {
      hide Stands;
      var x := p.todo[0];
      assert x in p.todo && x.id != head by { NotHead(p); }
      VisitDecides(Fields(alarm), x.deadline, p.now);
    }

    lemma NotElsewhere(p: DS.Pass<Entry>, alarm: Entry)
      requires DS.PassFormed(p) && StandsAt(p, alarm)
      ensures forall x :: x in p.done ==> x.id != alarm
      ensures Unlisted(p, alarm) ==> forall x :: x in p.todo ==> x.id != alarm
    {
      if AtFirst(p, alarm) {
        DS.HeadIsAlone(p);
      }
    }

    /** One round of the loop of alt_tick, wherever it stands. */
    method Round(alarm: Entry, ghost p: DS.Pass<Entry>)
      returns (next: Entry, called: bool, reply: Word, ghost ops: seq<DS.Op<Entry>>)
      requires InPass(p, head) && p.now > 0 && StandsAt(p, alarm) && alarm in alarms
      modifies head`next, head`previous, alarms
      ensures next == if Unlisted(p, alarm) then alarm else if |p.todo| > 1 then p.todo[1].id else head
      ensures DS.OpsAllowed(p, alarm, ops) && (AtFirst(p, alarm) ==> (called <==> p.todo[0].deadline == p.now))
      ensures called ==> InPass(DS.AfterCall(p, alarm, ops, reply), head)
      ensures !called && AtFirst(p, alarm) ==> InPass(DS.AfterVisit(p, DS.NotDue(alarm)), head)
      ensures !called && Unlisted(p, alarm) ==> InPass(p, head)
      ensures !called ==> alarm.time == old(alarm.time) && alarm.rollover == (old(alarm.rollover) && nticks != 0)
      ensures !called ==> forall e :: e in alarms ==>
        e.next == old(e.next) && e.previous == old(e.previous) && (e != alarm ==> Fields(e) == old(Fields(e)))
    {
      hide DS.PassFormed, Linked, Stands, Shows, StandsAt, Unlisted, DS.OpsAllowed;
      WhereNext(p, alarm);
      NotElsewhere(p, alarm);
      if AtFirst(p, alarm) {
        FirstDecides(p, alarm);
      }
      next := alarm.next;
      reply, ops := 0, [];
      if alarm.rollover && nticks == 0 {
        alarm.rollover := false;
      }
      assert Timed(p, alarm) && (Unlisted(p, alarm) ==> Timed(p, head));
      hide Timed;
      NoOps(p, alarm);
      called := alarm.time <= nticks && !alarm.rollover;
      if called {
        reply, ops := Callback(alarm, p);
        TakeReply(alarm, reply, p, ops);
      } else {
        if AtFirst(p, alarm) {
          PassedOver(p, DS.NotDue(alarm));
        }
      }
    }

    lemma NoOps(p: DS.Pass<Entry>, alarm: Entry)
      ensures DS.OpsAllowed(p, alarm, [])
    {
    }

    lemma NotHead(p: DS.Pass<Entry>)
      requires Linked(DS.Ids(p.done + p.todo))
      ensures p.todo != [] ==> p.todo[0].id != head
    {
      assert p.todo != [] ==> DS.Ids(p.done + p.todo)[|p.done|] == p.todo[0].id;
    }

    /** Seen from the next tick, the whole list is still to be visited. */
    lemma AllAhead(now: nat, items: seq<DS.Item<Entry>>)
      requires Timed(DS.Pass(now, items, []), head)
      ensures Timed(DS.Pass(now + 1, [], items), head)
    {
      hide Stands;
    }

    lemma AllFormed(now: nat, items: seq<DS.Item<Entry>>)
      requires DS.PassFormed(DS.Pass(now, items, []))
      ensures DS.PassFormed(DS.Pass(now + 1, [], items))
    {
      Units(items);
      DS.PassOfIsFormed(DS.Sched(now, items));
    }

    /** The tick counter goes on, and a pass over the list can begin. */
    method Advance()
      requires Valid()
      modifies this`nticks
      ensures InPass(DS.PassOf(sched), head)
      ensures head.next == if sched.items == [] then head else sched.items[0].id
    {
      hide DS.PassFormed, Timed, Linked, Shows, DS.Ids;
      Units(sched.items);
      FirstOf(sched.items);
      AllFormed(sched.now, sched.items);
      AllAhead(sched.now, sched.items);
      CountOn(nticks, sched.now);
      nticks := (nticks + 1) % WRAP;
    }

    lemma Units<T>(s: seq<T>)
      ensures s + [] == s && [] + s == s
    {
    }

    /** The loop goes on at the saved successor. */
    lemma Resumed(p: DS.Pass<Entry>, v: DS.Visit<Entry>)
      requires DS.PassFormed(p) && DS.VisitAllowed(p, v) && v.Called? && p.now > 0
      requires InPass(DS.AfterCall(p, v.id, v.ops, v.reply), head)
      ensures InPass(DS.AfterVisit(p, v), head)
    {
      hide DS.PassFormed, Linked, Shows, Timed, DS.AfterCall, DS.Resume, DS.Ids;
      var r := DS.AfterCall(p, v.id, v.ops, v.reply);
      DS.VisitKeepsFormed(p, v);
      DS.ResumeKeepsList(r, DS.Successor(p.todo));
      DS.CallNow(p, v);
      ResumedTimed(r, DS.Successor(p.todo));
    }

    lemma ResumedTimed(r: DS.Pass<Entry>, next: seq<Entry>)
      requires r.now > 0 && Timed(r, head)
      ensures DS.Resume(r, next).now == r.now && Timed(DS.Resume(r, next), head)
    {
      DS.ResumeMembers(r, next);
      hide Stands, DS.Resume;
    }

    /** The saved successor is in the list just when it does not link to itself. */
    lemma LinkedJustWhenListed(p: DS.Pass<Entry>, a: Entry)
      requires Linked(DS.Ids(p.done + p.todo)) && a in alarms
      ensures a.next == a <==> Unlisted(p, a)
      ensures Unlisted(p, a) <==> !DS.Listed(p, a)
    {
      UnlistedId(p, a);
      if a.next == a {
        SelfLinked(a, DS.Ids(p.done + p.todo));
      }
      hide Linked;
      PlacedJustWhenListed(p, a);
    }

    /** What the loop has come to when it stands on an alarm that is in no list: a callback has returned with the
        saved successor stopped. */
    ghost predicate Lost(p: DS.Pass<Entry>, v: DS.Visit<Entry>, alarm: Entry) {
      && v.Called? && AtFirst(p, v.id) && p.todo[0].deadline == p.now && DS.OpsAllowed(p, v.id, v.ops)
      && DS.Successor(p.todo) == [alarm] && !DS.SuccessorListed(p, v.id, v.ops, v.reply)
    }

    /** It can come to that: at the first tick after two alarms were started, if the callback of the one started
        last stops the other. */
    lemma LoopGetsLost(a: Entry, b: Entry, reply: Word)
      requires a != b
      ensures Lost(DS.PassOf(DS.Sched(0, [DS.Item(a, 1), DS.Item(b, 1)])), DS.Called(a, [DS.Stop(b)], reply), b)
    {
      DS.SuccessorGetsLost(a, b, reply);
    }

    /** One round of the loop from the first alarm still to be visited: the visit it makes, unless it gets lost. */
    method Visit(alarm: Entry, ghost p: DS.Pass<Entry>) returns (next: Entry, lost: bool, ghost v: DS.Visit<Entry>)
      requires InPass(p, head) && AtFirst(p, alarm) && p.now > 0
      modifies head`next, head`previous, alarms
      ensures !lost ==> DS.VisitAllowed(p, v) && InPass(DS.AfterVisit(p, v), head)
      ensures !lost ==> next == if DS.AfterVisit(p, v).todo == [] then head else DS.AfterVisit(p, v).todo[0].id
      ensures lost ==> Lost(p, v, next) && next in alarms
      ensures lost ==> var r := DS.AfterCall(p, v.id, v.ops, v.reply); InPass(r, head) && Unlisted(r, next)
    {
      hide DS.PassFormed, Linked, Shows, Timed, DS.OpsAllowed, DS.AfterCall, DS.Listed, DS.Resume;
      FirstInAlarms(p);
      var called, reply;
      ghost var ops;
      next, called, reply, ops := Round(alarm, p);
      v := if called then DS.Called(alarm, ops, reply) else DS.NotDue(alarm);
      lost := called && next != head && next.next == next;
      if called {
        if |p.todo| > 1 {
          LinkedJustWhenListed(DS.AfterCall(p, alarm, ops, reply), next);
        }
        if !lost {
          Resumed(p, v);
        }
      }
      if !lost {
        DS.GoesOnAtSuccessor(p, v);
      }
    }

    lemma FirstInAlarms(p: DS.Pass<Entry>)
      requires Linked(DS.Ids(p.done + p.todo)) && (p.now > 0 || p.todo == []) && Timed(p, head) && p.todo != []
      ensures p.todo[0].id in alarms && p.todo[0].id != head && !Unlisted(p, p.todo[0].id)
      ensures |p.todo| > 1 ==> p.todo[1].id in alarms && p.todo[1].id != head
    {
      assert p.todo[0] in p.todo && (|p.todo| > 1 ==> p.todo[1] in p.todo);
    }

    /** The loop of alt_tick. It comes to the head of the list, and then was a complete pass of the scheduler,
        unless a callback returns with the saved successor stopped; there the model stops watching. */
    method RunPass(ghost p0: DS.Pass<Entry>)
      returns (stuck: Entry?, ghost visits: seq<DS.Visit<Entry>>, ghost last: DS.Visit<Entry>)
      requires p0.now > 0 && InPass(p0, head)
      requires head.next == if p0.todo == [] then head else p0.todo[0].id
      modifies head`next, head`previous, alarms
      ensures DS.VisitsAllowed(p0, visits)
      ensures var p := DS.AfterVisits(p0, visits);
        && p.now == p0.now
        && (stuck == null ==> p.todo == [] && InPass(p, head))
        && (stuck != null ==> Lost(p, last, stuck) && Adrift(stuck, DS.AfterCall(p, last.id, last.ops, last.reply)))
    {
      hide DS.PassFormed, Linked, Timed, Shows, DS.VisitAllowed, DS.AfterVisit, DS.AfterCall, Unlisted, Lost;
      var alarm := head.next;
      ghost var p := p0;
      stuck, visits, last := null, [], DS.NotDue(head);
      while alarm != head
        invariant DS.VisitsAllowed(p0, visits) && p == DS.AfterVisits(p0, visits)
        invariant p.now == p0.now && InPass(p, head)
        invariant alarm == if p.todo == [] then head else p.todo[0].id
        decreases DS.StillDue(p), |p.todo|
      {
        ghost var v;
        var lost;
        alarm, lost, v := Visit(alarm, p);
        if lost {
          last := v;
          CallNow(p, v, alarm);
          return alarm, visits, last;
        }
        DS.VisitsSnoc(p0, visits, v);
        DS.VisitsEnd(p, v);
        DS.VisitNow(p, v);
        visits := visits + [v];
        p := DS.AfterVisit(p, v);
      }
      NotHead(p);
    }

    lemma CallNow(p: DS.Pass<Entry>, v: DS.Visit<Entry>, alarm: Entry)
      requires Lost(p, v, alarm)
      ensures v.Called? && DS.AfterCall(p, v.id, v.ops, v.reply).now == p.now
    {
      DS.CallNow(p, v);
    }

    /** The loop of alt_tick stands on an alarm that is in no list. */
    ghost predicate Adrift(alarm: Entry, q: DS.Pass<Entry>)
      reads this`nticks, head`next, head`previous, alarms
    {
      InPass(q, head) && q.now > 0 && alarm in alarms && Unlisted(q, alarm)
    }

    /** Any alarm in no list would do. */
    lemma UnlistedIsAdrift(a: Entry)
      requires Valid() && sched.now > 0 && a in alarms && a !in DS.Ids(sched.items)
      ensures Adrift(a, DS.Pass(sched.now, sched.items, []))
    {
      Units(sched.items);
      UnlistedId(DS.Pass(sched.now, sched.items, []), a);
      hide InPass;
    }

    /** From there the loop never ends: after any number of further rounds, whatever callbacks they make, it
        stands on the same alarm. */
    method RunAdrift(alarm: Entry, rounds: nat, ghost q0: DS.Pass<Entry>) returns (last: Entry, ghost q: DS.Pass<Entry>)
      requires Adrift(alarm, q0)
      modifies head`next, head`previous, alarms
      ensures Adrift(alarm, q) && last == alarm != head
    {
      hide DS.PassFormed, Linked, Timed, Shows, Unlisted;
      q, last := q0, alarm;
      AdriftNotHead(alarm, q);
      var i := 0;
      while i < rounds
        invariant Adrift(alarm, q) && last == alarm
      {
        var called, reply;
        ghost var ops;
        last, called, reply, ops := Round(last, q);
        if called {
          DS.CallKeepsFormed(q, alarm, ops, reply);
          SelfAhead(q, alarm, ops, reply);
          q := DS.AfterCall(q, alarm, ops, reply);
        }
        i := i + 1;
      }
    }

    lemma AdriftNotHead(alarm: Entry, q: DS.Pass<Entry>)
      requires Adrift(alarm, q)
      ensures alarm != head
    {
    }

    /** alt_tick. When every callback returns with the saved successor listed, it ends and is exactly one Tick
        event of the scheduler; otherwise it stays in its loop for good. */
    method Tick()
      returns (stuck: Entry?, ghost visits: seq<DS.Visit<Entry>>, ghost last: DS.Visit<Entry>)
      requires Valid()
      modifies this`nticks, this`sched, head`next, head`previous, alarms
      ensures stuck == null ==> Valid() && DS.EventAllowed(old(sched), DS.Tick(visits))
      ensures stuck == null ==> sched == DS.AfterEvent(old(sched), DS.Tick(visits))
      ensures stuck != null ==> sched == old(sched) && DS.VisitsAllowed(DS.PassOf(sched), visits)
      ensures stuck != null ==> Lost(DS.AfterVisits(DS.PassOf(sched), visits), last, stuck)
      ensures stuck != null ==>
        Adrift(stuck, DS.AfterCall(DS.AfterVisits(DS.PassOf(sched), visits), last.id, last.ops, last.reply))
    {
      hide InPass, DS.VisitsAllowed, DS.AfterVisits, Lost;
      Advance();
      stuck, visits, last := RunPass(DS.PassOf(sched));
      if stuck == null {
        ghost var p := DS.AfterVisits(DS.PassOf(sched), visits);
        sched := DS.Sched(p.now, p.done);
        assert p == DS.Pass(sched.now, sched.items, []);
      }
    }

    /** alt_alarm_start and alt_alarm_stop from outside a callback. */
    method Ask(alarm: Entry, starting: bool, interval: Word) returns (rc: int)
      requires Valid() && alarm in alarms
      requires starting ==> DS.EventAllowed(sched, DS.Ask(DS.Start(alarm, interval)))
      modifies this`sched, head`next, head`previous, alarms
      ensures Valid()
      ensures rc == if starting && tickRate == 0 then -ENOTSUP else 0
      ensures sched == if rc != 0 then old(sched)
        else DS.AfterEvent(old(sched), DS.Ask(if starting then DS.Start(alarm, interval) else DS.Stop(alarm)))
    {
      rc := 0;
      ghost var p := DS.Pass(sched.now, sched.items, []);
      assert p.done + p.todo == sched.items;
      if starting {
        rc := Start(alarm, interval, p, head);
      } else {
        Stop(alarm, p, head);
      }
      if rc == 0 {
        ghost var op := if starting then DS.Start(alarm, interval) else DS.Stop(alarm);
        sched := DS.Sched(sched.now, DS.ApplyOp(p, op).done);
      }
    }
  }
}
