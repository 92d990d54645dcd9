/**
  The 32-bit arithmetic of one alarm. The tick counter wraps at 2^32; an alarm remembers the low 32
  bits of its deadline and one flag that says whether the counter has to wrap first. Below, that pair
  is shown to stand for an unbounded deadline.
 */
module TickArithmetic {

  const WRAP: nat := 0x1_0000_0000

  type Word = x: int | 0 <= x < 0x1_0000_0000

  datatype Cell = Cell(time: Word, rollover: bool)

  /** alt_alarm_start: the fields of an alarm started for `nticks` when the counter shows `current`. */
  function StartCell(nticks: Word, current: Word): Cell {
    var time := (nticks + current + 1) % WRAP;
    Cell(time, time < current)
  }

  /** alt_tick, first test: a wrap of the counter clears the flag. */
  function AtTick(c: Cell, counter: Word): Cell {
    if c.rollover && counter == 0 then c.(rollover := false) else c
  }

  /** alt_tick, second test: the alarm is due. */
  predicate Expired(c: Cell, counter: Word) {
    c.time <= counter && !c.rollover
  }

  /** alt_tick, behind a callback that asks to be called again in `reply` ticks. */
  function Again(c: Cell, reply: Word, counter: Word): Cell {
    var time := (c.time + reply) % WRAP;
    Cell(time, if time < counter then true else c.rollover)
  }

  /** The pair of 32-bit fields stands for `deadline`, seen from `now`. */
  ghost predicate Stands(c: Cell, deadline: nat, now: nat) {
    && now < deadline < now + WRAP
    && c.time == deadline % WRAP
    && (c.rollover <==> deadline / WRAP != now / WRAP)
  }

  /** What the 32-bit counter shows at tick `now`. */
  ghost predicate Shows(counter: Word, now: nat) {
    counter == now % WRAP
  }

  lemma CountOn(counter: Word, now: nat)
    requires Shows(counter, now)
    ensures Shows((counter + 1) % WRAP, now + 1)
  {
    ModAdd(now, 1);
  }

  /** Less than one turn ahead, the low parts alone tell whether the counter has to wrap. */
  lemma LowParts(now: nat, ahead: nat)
    requires 0 < ahead < WRAP
    ensures var d := now + ahead;
      && (d / WRAP == now / WRAP || d / WRAP == now / WRAP + 1)
      && (d % WRAP < now % WRAP <==> d / WRAP == now / WRAP + 1)
      && d % WRAP == (now % WRAP + ahead) % WRAP
  {
    var d := now + ahead;
    var q, r := now / WRAP, now % WRAP;
    if r + ahead < WRAP {
      DivModUnique(d, q, r + ahead);
      DivModUnique(r + ahead, 0, r + ahead);
    } else {
      DivModUnique(d, q + 1, r + ahead - WRAP);
      DivModUnique(r + ahead, 1, r + ahead - WRAP);
    }
  }

  lemma DivModUnique(x: nat, q: nat, r: nat)
    requires r < WRAP && x == WRAP * q + r
    ensures x / WRAP == q && x % WRAP == r
  {
  }

  lemma StartStands(nticks: Word, now: nat)
    requires nticks < WRAP - 1
    ensures Stands(StartCell(nticks, now % WRAP), now + nticks + 1, now)
  {
    LowParts(now, nticks + 1);
  }

  /** A tick makes the alarm due exactly when the deadline is reached, however often the counter has
      wrapped; until then the pair goes on standing for the same deadline. */
  lemma DueExactlyAtDeadline(c: Cell, deadline: nat, now: nat)
    requires Stands(c, deadline, now)
    ensures var c' := AtTick(c, (now + 1) % WRAP);
      && (Expired(c', (now + 1) % WRAP) <==> deadline == now + 1)
      && (deadline != now + 1 ==> Stands(c', deadline, now + 1))
      && (deadline == now + 1 ==> c'.time == (now + 1) % WRAP)
  {
    LowParts(now, 1);
    LowParts(now, deadline - now);
    if deadline != now + 1 {
      LowParts(now + 1, deadline - (now + 1));
    }
  }

  /** An alarm whose fields already stand for its deadline as seen from this tick is left alone by it. */
  lemma SeenAlready(c: Cell, deadline: nat, now: nat)
    requires Stands(c, deadline, now)
    ensures AtTick(c, now % WRAP) == c && !Expired(c, now % WRAP)
  {
    LowParts(now, deadline - now);
  }

  /** What a visit at tick `now` makes of an alarm, whether or not it was visited or started in this tick. */
  lemma VisitDecides(c: Cell, deadline: nat, now: nat)
    requires now > 0 && now <= deadline && (Stands(c, deadline, now) || Stands(c, deadline, now - 1))
    ensures var c' := AtTick(c, now % WRAP);
      && (Expired(c', now % WRAP) <==> deadline == now)
      && (deadline != now ==> Stands(c', deadline, now))
      && (deadline == now ==> c'.time == now % WRAP)
  {
    if Stands(c, deadline, now) {
      SeenAlready(c, deadline, now);
    } else {
      DueExactlyAtDeadline(c, deadline, now - 1);
    }
  }

  lemma AgainStands(c: Cell, reply: Word, now: nat)
    requires c.time == now % WRAP && !c.rollover && reply > 0
    ensures Stands(Again(c, reply, now % WRAP), now + reply, now)
  {
    LowParts(now, reply);
  }

  // ---------------------------------------------------------------- one alarm left alone

  /** The fields after `k` ticks in which the alarm was not due. */
  function Later(c: Cell, current: Word, k: nat): Cell {
    if k == 0 then c else AtTick(Later(c, current, k - 1), (current + k) % WRAP)
  }

  predicate DueAt(c: Cell, current: Word, k: nat) {
    k > 0 && Expired(Later(c, current, k), (current + k) % WRAP)
  }

  /** The alarm is called for the first time on the k-th tick from now. */
  ghost predicate FirstDueAt(c: Cell, current: Word, k: nat) {
    DueAt(c, current, k) && forall j :: 0 < j < k ==> !DueAt(c, current, j)
  }

  lemma {:induction false} StandsUntilDue(c: Cell, now: nat, deadline: nat, k: nat)
    requires Stands(c, deadline, now) && k < deadline - now
    ensures Stands(Later(c, now % WRAP, k), deadline, now + k)
    ensures (now % WRAP + k) % WRAP == (now + k) % WRAP
    ensures k > 0 ==> !DueAt(c, now % WRAP, k)
    decreases k
  {
    ModAdd(now, k);
    if k == 0 {
    } else {
      StandsUntilDue(c, now, deadline, k - 1);
      DueExactlyAtDeadline(Later(c, now % WRAP, k - 1), deadline, now + k - 1);
    }
  }

  lemma ModAdd(a: nat, b: nat)
    ensures (a % WRAP + b) % WRAP == (a + b) % WRAP
  {
    var q, r := a / WRAP, a % WRAP;
    var q', r' := (r + b) / WRAP, (r + b) % WRAP;
    DivModUnique(a + b, q + q', r');
  }

  /** An alarm that stands for a deadline is first called exactly at that deadline. */
  lemma FirstDueAtDeadline(c: Cell, now: nat, deadline: nat)
    requires Stands(c, deadline, now)
    ensures FirstDueAt(c, now % WRAP, deadline - now)
  {
    var k := deadline - now;
    forall j | 0 < j < k ensures !DueAt(c, now % WRAP, j) {
      StandsUntilDue(c, now, deadline, j);
    }
    StandsUntilDue(c, now, deadline, k - 1);
    ModAdd(now, k);
    DueExactlyAtDeadline(Later(c, now % WRAP, k - 1), deadline, deadline - 1);
  }

  /** When an alarm comes nticks + 1 ticks after its start, as promised: for every interval but the
      largest, and for that one only when it is started just before the counter wraps. */
  lemma StartedAlarmIsExact(nticks: Word, current: Word)
    ensures FirstDueAt(StartCell(nticks, current), current, nticks + 1)
        <==> nticks < WRAP - 1 || current == WRAP - 1
  {
    var c := StartCell(nticks, current);
    assert current % WRAP == current;
    if nticks < WRAP - 1 {
      StartStands(nticks, current);
      FirstDueAtDeadline(c, current, current + nticks + 1);
    } else {
      DivModUnique(nticks + current + 1, 1, current);
      assert c == Cell(current, false);
      if current < WRAP - 1 {
        assert (current + 1) % WRAP == current + 1;
        assert Later(c, current, 0) == c;
        assert DueAt(c, current, 1);
      } else {
        LastWordIsATurnAhead(c);
      }
    }
  }

  /** The largest interval started at any other moment comes on the very next tick instead. */
  lemma LargestIntervalComesAtOnce()
    ensures FirstDueAt(StartCell(WRAP - 1, 7), 7, 1)
    ensures !FirstDueAt(StartCell(WRAP - 1, 7), 7, WRAP)
  {
    StartedAlarmIsExact(WRAP - 1, 7);
    DivModUnique(WRAP + 7, 1, 7);
    assert StartCell(WRAP - 1, 7) == Cell(7, false);
    assert Later(Cell(7, false), 7, 0) == Cell(7, false);
    assert (7 + 1) % WRAP == 8;
  }

  lemma LastWordIsATurnAhead(c: Cell)
    requires c == Cell(WRAP - 1, false)
    ensures FirstDueAt(c, WRAP - 1, WRAP)
  {
    var last: Word := WRAP - 1;
    forall j | 0 < j < WRAP ensures !DueAt(c, last, j) {
      Unchanged(c, j);
      DivModUnique(WRAP - 1 + j, 1, j - 1);
    }
    Unchanged(c, WRAP);
    DivModUnique(WRAP - 1 + WRAP, 1, WRAP - 1);
  }

  lemma {:induction false} Unchanged(c: Cell, k: nat)
    requires !c.rollover
    ensures Later(c, WRAP - 1, k) == c
    decreases k
  {
    if k == 0 {
    } else {
      Unchanged(c, k - 1);
    }
  }
}
