/** The cursor state every codec works through (index.d.ts:15-25), the
    error kinds the codecs throw, and the two primitive stores the codecs
    use on the buffer. */
module Cursor {
  import opened Wire

  /** What a codec throws: `new Error('Out of bounds')`,
      `new Error('Array is too big')`, or a RangeError raised by a
      typed-array or DataView operation that does not fit its buffer. */
  datatype Error = OutOfBounds | ArrayTooBig | RangeError

  datatype Result<T> = Ok(value: T) | Err(error: Error)

  /** The outcome of a decode together with where `state.start` stands
      afterwards; on a throw the cursor may already have moved. */
  datatype Parsed<T> = Parsed(result: Result<T>, next: nat)

  /** The outcome of an encode that may throw. */
  datatype Status = Done | Thrown(error: Error)

  /** What an encode does to the buffer and the cursor, and whether it throws. */
  datatype Effect = Effect(status: Status, buffer: seq<byte>, start: nat)

  /** `{ start, end, buffer }`. `buffer` is null while sizes are being
      summed; `byteOffset` is the buffer's offset inside the memory that
      backs it (`state.buffer.byteOffset`), which only the typed-array
      decoder looks at. */
  class State {
    var start: nat
    var end: nat
    var buffer: array?<byte>
    var byteOffset: nat

    /** `state(start, end, buffer)`: a fresh state, by default the empty
        one used for the size pass. */
    constructor (start: nat, end: nat, buffer: array?<byte>)
      ensures this.start == start && this.end == end && this.buffer == buffer
      ensures byteOffset == 0
    {
      this.start := start;
      this.end := end;
      this.buffer := buffer;
      byteOffset := 0;
    }

    /** `state.buffer[state.start++] = v`: a store past the end of a
        Uint8Array is silently dropped, the cursor moves regardless. */
    method PutByte(v: byte)
      requires buffer != null
      modifies this`start, buffer
      ensures buffer[..] == Overlay(old(buffer[..]), old(start), [v])
      ensures start == old(start) + 1
    {
      if start < buffer.Length {
        buffer[start] := v;
      }
      start := start + 1;
    }

    /** A run of `state.buffer[state.start++] = ...` stores. */
    method PutBytes(bs: seq<byte>)
      requires buffer != null
      modifies this`start, buffer
      ensures buffer[..] == Overlay(old(buffer[..]), old(start), bs)
      ensures start == old(start) + |bs|
    {
      var i := 0;
      while i < |bs|
        invariant 0 <= i <= |bs|
        invariant start == old(start) + i
        invariant buffer[..] == Overlay(old(buffer[..]), old(start), bs[..i])
      {
        OverlayAppend(old(buffer[..]), old(start), bs[..i], [bs[i]]);
        assert bs[..i] + [bs[i]] == bs[..i + 1];
        PutByte(bs[i]);
        i := i + 1;
      }
      assert bs[..i] == bs;
    }

    /** `state.buffer.set(bs, state.start)`: copies all of bs or, when it
        does not fit, throws a RangeError and copies nothing. The cursor
        is not moved. */
    method SetBytes(bs: seq<byte>) returns (s: Status)
      requires buffer != null
      modifies buffer
      ensures s == (if start + |bs| <= buffer.Length then Done else Thrown(RangeError))
      ensures buffer[..] == if s.Done? then Overlay(old(buffer[..]), start, bs) else old(buffer[..])
    {
      if start + |bs| > buffer.Length {
        return Thrown(RangeError);
      }
      var i := 0;
      while i < |bs|
        invariant 0 <= i <= |bs|
        invariant buffer[..] == Overlay(old(buffer[..]), start, bs[..i])
      {
        OverlayAppend(old(buffer[..]), start, bs[..i], [bs[i]]);
        assert bs[..i] + [bs[i]] == bs[..i + 1];
        buffer[start + i] := bs[i];
        i := i + 1;
      }
      assert bs[..i] == bs;
      s := Done;
    }
  }
}
