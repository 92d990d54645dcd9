/**
  The circular doubly linked lists of the HAL. A list is a head entry; an entry carries, besides its two
  links, the fields of the structure it is embedded in, here those of an alarm. A head uses only its links.
 */
module IntrusiveList {
  import opened TickArithmetic

  class Entry {
    var next: Entry
    var previous: Entry
    var time: Word
    var rollover: bool

    /** ALT_LLIST_HEAD, or an entry that is in no list. */
    constructor ()
      ensures next == this && previous == this
    {
      next, previous := this, this;
      time, rollover := 0, false;
    }
  }

  /** The entry is in no list; further removals are harmless. */
  predicate Detached(e: Entry)
    reads e`next, e`previous
  {
    e.next == e && e.previous == e
  }

  /** The entries of a list, its head first: `next` leads through exactly these and back to the head, and
      `previous` leads the same way backwards. */
  ghost predicate Ring(c: seq<Entry>)
    reads c`next, c`previous
  {
    && c != [] && (forall i, j :: 0 <= i < j < |c| ==> c[i] != c[j])
    && (forall i {:trigger c[i].next} :: 0 <= i < |c| - 1 ==> c[i].next == c[i + 1])
    && (forall i {:trigger c[i].previous} :: 1 <= i < |c| ==> c[i].previous == c[i - 1])
    && c[|c| - 1].next == c[0] && c[0].previous == c[|c| - 1]
  }

  lemma Neighbours(c: seq<Entry>, k: nat)
    requires Ring(c) && k < |c|
    ensures c[k].next == if k + 1 < |c| then c[k + 1] else c[0]
    ensures c[k].previous == if k > 0 then c[k - 1] else c[|c| - 1]
  {
  }

  /** alt_llist_insert: the new entry comes first. */
  method Insert(list: Entry, entry: Entry, ghost c: seq<Entry>)
    requires Ring(c) && list == c[0] && entry !in c
    modifies list`next, list.next`previous, entry`next, entry`previous
    ensures Ring([list, entry] + c[1..])
  {
    ghost var d := [list, entry] + c[1..];
    assert list.next == if |c| > 1 then c[1] else c[0];
    entry.previous := list;
    entry.next := list.next;
    list.next.previous := entry;
    list.next := entry;
    assert forall i :: 2 <= i < |d| ==> d[i] == c[i - 1];
    assert |c| > 1 ==> d[|d| - 1] == c[|c| - 1];
  }

  /** alt_llist_remove; `k` is where in the list the entry stands, 0 if it is in none. */
  method Remove(entry: Entry, ghost c: seq<Entry>, ghost k: nat)
    requires Ring(c) && k < |c|
    requires if k == 0 then entry !in c && Detached(entry) else c[k] == entry
    modifies entry`next, entry`previous, entry.next`previous, entry.previous`next
    ensures Detached(entry)
    ensures k > 0 ==> Ring(c[..k] + c[k + 1..])
    ensures k == 0 ==> Ring(c)
    ensures k == 0 ==> forall e :: e in c ==> e.next == old(e.next) && e.previous == old(e.previous)
  {
    assert k > 0 ==> entry.previous == c[k - 1];
    assert k > 0 && k + 1 < |c| ==> entry.next == c[k + 1];
    entry.next.previous := entry.previous;
    entry.previous.next := entry.next;
    // out of the list an entry links to itself
    entry.previous := entry;
    entry.next := entry;
    if k > 0 {
      ghost var d := c[..k] + c[k + 1..];
      assert forall i :: 0 <= i < k ==> d[i] == c[i];
      assert forall i :: k <= i < |d| ==> d[i] == c[i + 1];
      assert d[|d| - 1] == if k + 1 < |c| then c[|c| - 1] else c[k - 1];
      forall i {:trigger d[i].next} | 0 <= i < |d| - 1 ensures d[i].next == d[i + 1] {
        assert i < k - 1 ==> old(c[i].next) == c[i + 1];
        assert i >= k ==> old(c[i + 1].next) == c[i + 2];
      }
      forall i {:trigger d[i].previous} | 1 <= i < |d| ensures d[i].previous == d[i - 1] {
        assert i < k ==> old(c[i].previous) == c[i - 1];
        assert i > k ==> old(c[i + 1].previous) == c[i];
      }
    }
  }
}
