/**
 * A position-tracking reader over a byte source. The source may be an owned
 * slice, a read-only mapping or a writable mapping; all three are read the
 * same way, so the model holds the bytes as one sequence.
 */
module Cursors {
  import opened Storage

  class Cursor {
    /** The byte source. */
    const data: seq<u8>
    /** Total addressable length, fixed at construction. */
    const len: nat
    /** Offset of the next byte to read. */
    var position: nat
    /** Bytes taken by the most recent successful `Consume`. */
    var lastConsumedSize: nat
    /** Where `Reset` rewinds to; 0 when unset. */
    var startingPos: Option<nat>

    predicate Valid() {
      len == |data|
    }

    /** `Cursor::raw`, `Cursor::mmap`, `Cursor::mmap_mut` and `Cursor::new`. */
    constructor (data: seq<u8>)
      ensures Valid() && this.data == data
      ensures position == 0 && lastConsumedSize == 0 && startingPos == None
    {
      this.data := data;
      len := |data|;
      position := 0;
      lastConsumedSize := 0;
      startingPos := None;
    }

    /** Sets the reset anchor and moves there. */
    method SetStartingPos(pos: nat)
      modifies this`startingPos, this`position
      ensures startingPos == Some(pos) && position == pos
    {
      startingPos := Some(pos);
      position := pos;
    }

    /** The bytes of the source in [start, end); out-of-range slicing panics in the source. */
    function GetRange(start: nat, end: nat): (r: seq<u8>)
      requires start <= end <= |data|
      ensures |r| == end - start
      ensures forall i :: 0 <= i < |r| ==> r[i] == data[start + i]
    {
      data[start..end]
    }

    /** The next `size` bytes, without moving. */
    function Peek(size: nat): (r: Result<seq<u8>, CursorError>)
      reads this
      requires Valid()
      ensures r.Err? <==> position + size > len
      ensures r.Ok? ==> |r.value| == size && forall i :: 0 <= i < size ==> r.value[i] == data[position + i]
    {
      if position + size > len then Err(InvalidRange)
      else Ok(GetRange(position, position + size))
    }

    /** Reads the next `size` bytes and moves past them; a failed read changes nothing. */
    method Consume(size: nat) returns (r: Result<seq<u8>, CursorError>)
      requires Valid()
      modifies this`position, this`lastConsumedSize
      ensures r == old(Peek(size))
      ensures r.Ok? ==> position == old(position) + size && lastConsumedSize == size
      ensures r.Err? ==> position == old(position) && lastConsumedSize == old(lastConsumedSize)
    {
      r := Peek(size);
      if r.Err? {
        return;
      }
      position := position + size;
      lastConsumedSize := size;
    }

    /** Unchecked step backwards; stepping before 0 is an underflow in the source. */
    method SetBack(steps: nat)
      requires steps <= position
      modifies this`position
      ensures position == old(position) - steps
    {
      position := position - steps;
    }

    /** Unchecked step forwards. */
    method Forward(steps: nat)
      modifies this`position
      ensures position == old(position) + steps
    {
      position := position + steps;
    }

    /** Unchecked absolute move. */
    method MoveTo(pos: nat)
      modifies this`position
      ensures position == pos
    {
      position := pos;
    }

    /** Rewinds to the starting position (0 if none was set) and clears the last consumed size. */
    method Reset()
      modifies this`position, this`lastConsumedSize
      ensures lastConsumedSize == 0
      ensures startingPos.None? ==> position == 0
      ensures startingPos.Some? ==> position == startingPos.value
    {
      lastConsumedSize := 0;
      position := match startingPos case Some(p) => p case None => 0;
    }

    /** At the end exactly when not even one more byte can be peeked. */
    function IsEof(): (r: bool)
      reads this
      requires Valid()
      ensures r <==> Peek(1).Err?
    {
      position >= len
    }
  }

  /** A client: stepping forward then back by the same amount returns to the same place. */
  method ForwardThenSetBack(c: Cursor, steps: nat)
    modifies c
    ensures c.position == old(c.position)
    ensures c.lastConsumedSize == old(c.lastConsumedSize) && c.startingPos == old(c.startingPos)
  {
    c.Forward(steps);
    c.SetBack(steps);
  }

  /** A client: after `SetStartingPos(p)`, a `MoveTo(q)` followed by `Reset` comes back to p, and the starting position stays p. */
  method ResetReturnsToStart(c: Cursor, p: nat, q: nat)
    modifies c
    ensures c.position == p && c.lastConsumedSize == 0
    ensures c.startingPos == Some(p)
  {
    c.SetStartingPos(p);
    c.MoveTo(q);
    c.Reset();
  }

  /** The bytes of "Hello World". */
  const HELLO_WORLD: seq<u8> := [72, 101, 108, 108, 111, 32, 87, 111, 114, 108, 100]

  /** Reading "Hello World" as 5 bytes, then 6, then 1 more. */
  method HelloWorld() returns (hello: Result<seq<u8>, CursorError>, world: Result<seq<u8>, CursorError>,
                               rest: Result<seq<u8>, CursorError>)
    ensures hello == Ok([72, 101, 108, 108, 111])          // "Hello"
    ensures world == Ok([32, 87, 111, 114, 108, 100])      // " World"
    ensures rest == Err(InvalidRange)
  {
    var c := new Cursor(HELLO_WORLD);
    assert HELLO_WORLD[0..5] == [72, 101, 108, 108, 111];
    assert HELLO_WORLD[5..11] == [32, 87, 111, 114, 108, 100];
    hello := c.Consume(5);
    world := c.Consume(6);
    rest := c.Consume(1);
  }
}
