/**
  The two 2048-byte circular buffers of the JTAG UART driver, as values: what a buffer holds
  between its read index and its write index, and what moving either index does to that content.
  One slot always stays unused, so equal indices mean "empty".
 */
module CircularBuffer {

  const LEN: nat := 2048  // ALTERA_AVALON_JTAG_UART_BUF_LEN

  type Byte = x: int | 0 <= x < 256

  ghost predicate Shape(buf: seq<Byte>, out: nat, end: nat) {
    |buf| == LEN && out < LEN && end < LEN
  }

  /** The bytes waiting in the buffer, oldest first. */
  ghost function Content(buf: seq<Byte>, out: nat, end: nat): (c: seq<Byte>)
    requires Shape(buf, out, end)
    ensures |c| == if out <= end then end - out else LEN - out + end
  {
    if out <= end then buf[out..end] else buf[out..] + buf[..end]
  }

  function Wrap(x: nat): (w: nat)
    ensures w < LEN
    ensures x < LEN ==> w == x
    ensures LEN <= x < 2 * LEN ==> w == x - LEN
  {
    if x < LEN then x else Wrap(x - LEN)
  }

  /** The index `n` places behind index `i`. */
  function Advance(i: nat, n: nat): nat {
    Wrap(i + n)
  }

  /** It is what the driver computes with the remainder operator. */
  lemma {:induction false} AdvanceIsRemainder(i: nat, n: nat)
    ensures Advance(i, n) == (i + n) % LEN
    decreases n
  {
    if i + n >= LEN {
      WrapIsRemainder(i + n);
    }
  }

  lemma {:induction false} WrapIsRemainder(x: nat)
    ensures Wrap(x) == x % LEN
    decreases x
  {
    if x < LEN {
    } else {
      WrapIsRemainder(x - LEN);
      assert x % LEN == (x - LEN) % LEN;
    }
  }

  /** The driver's test "next == out" holds exactly when LEN - 1 bytes are waiting. */
  lemma FullIffNoRoom(buf: seq<Byte>, out: nat, end: nat)
    requires Shape(buf, out, end)
    ensures Advance(end, 1) == out <==> |Content(buf, out, end)| == LEN - 1
    ensures out == end <==> Content(buf, out, end) == []
  {
  }

  /** Storing one byte at the write index and moving that index by one appends the byte. */
  lemma Push(buf: seq<Byte>, out: nat, end: nat, b: Byte)
    requires Shape(buf, out, end) && Advance(end, 1) != out
    ensures Content(buf[end := b], out, Advance(end, 1)) == Content(buf, out, end) + [b]
  {
  }

  /** Moving the read index over n contiguous waiting bytes removes exactly those bytes. */
  lemma Pop(buf: seq<Byte>, out: nat, end: nat, n: nat)
    requires Shape(buf, out, end)
    requires out + n <= LEN && n <= |Content(buf, out, end)|
    ensures Content(buf, out, end)[..n] == buf[out..out + n]
    ensures Content(buf, Advance(out, n), end) == Content(buf, out, end)[n..]
  {
    if out + n == LEN {
      assert Advance(out, n) == 0;
    }
  }

  lemma PopRun(buf: seq<Byte>, out: nat, end: nat, n: nat)
    requires Shape(buf, out, end)
    requires out + n <= LEN && n <= |Content(buf, out, end)|
    ensures Content(buf, out, end) == buf[out..out + n] + Content(buf, Advance(out, n), end)
  {
    Pop(buf, out, end, n);
    var c := Content(buf, out, end);
    assert c == c[..n] + c[n..];
  }

  lemma PopOne(buf: seq<Byte>, out: nat, end: nat)
    requires Shape(buf, out, end) && out != end
    ensures Content(buf, out, end) == [buf[out]] + Content(buf, Advance(out, 1), end)
  {
    PopRun(buf, out, end, 1);
    assert buf[out..out + 1] == [buf[out]];
  }

  /** Bytes stored in the free part of the buffer are not part of its content. */
  lemma StoreOutside(buf: seq<Byte>, out: nat, end: nat, i: nat, b: Byte)
    requires Shape(buf, out, end)
    requires end <= i < LEN && i - end < LEN - 1 - |Content(buf, out, end)|
    ensures Content(buf[i := b], out, end) == Content(buf, out, end)
  {
  }

  /** Moving the write index over n contiguous free slots appends what was stored in them. */
  lemma Publish(buf: seq<Byte>, out: nat, end: nat, n: nat)
    requires Shape(buf, out, end)
    requires end + n <= LEN && n <= LEN - 1 - |Content(buf, out, end)|
    ensures Content(buf, out, Advance(end, n)) == Content(buf, out, end) + buf[end..end + n]
  {
    if end + n == LEN {
      assert Advance(end, n) == 0;
    }
  }
}
