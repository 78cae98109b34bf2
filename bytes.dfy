/** The byte-sequence codecs of index.js: the length-prefixed `buffer`
    (45-70), the unprefixed `raw` (72-85), `bool` (149-160), and the
    fixed-size blocks `fixed(n)` (259-274) of which `fixed32` (162-175)
    and `fixed64` (177-190) are the instances n = 32 and n = 64. */
module CompactBytes {
  import opened Wire
  import opened Cursor
  import opened CompactUint

  // buffer: null, or a byte sequence (an empty one is encoded like null)

  datatype Maybe<T> = Null | Some(value: T)

  /** Bytes `buffer.preencode` adds: a length prefix and the bytes, or the
      single byte of null. An empty buffer is an object, hence truthy. */
  function BufferSize(b: Maybe<seq<byte>>): nat
  {
    if b.Some? then UintSize(|b.value|) + |b.value| else 1
  }

  /** Bytes `buffer.encode` stores. Null and the empty buffer both become
      the single byte 0, and it is exactly what `buffer.preencode` counted. */
  function BufferBytes(b: Maybe<seq<byte>>): (r: seq<byte>)
    ensures |r| == BufferSize(b)
    ensures (b.Null? || b.value == []) <==> r == [0]
  {
    if b.Some? then UintBytes(|b.value|) + b.value else [0]
  }

  /** What `buffer.decode` returns with `state.start` at `at`: length 0 is
      null; otherwise the cursor moves past the declared bytes even when
      they are not all there, and then it throws. */
  function BufferParse(buf: seq<byte>, at: nat): Parsed<Maybe<seq<byte>>>
  {
    var p := UintParse(buf, at);
    if p.result.Err? then Parsed(Err(p.result.error), p.next)
    else if p.result.value == 0 then Parsed(Ok(Null), p.next)
    else
      var stop := p.next + p.result.value;
      if stop > |buf| then Parsed(Err(OutOfBounds), stop)
      else Parsed(Ok(Some(buf[p.next..stop])), stop)
  }

  /** What a buffer value decodes back to: an empty buffer comes back as null. */
  function BufferDecoded(b: Maybe<seq<byte>>): Maybe<seq<byte>>
  {
    if b.Some? && b.value == [] then Null else b
  }

  /** `buffer.decode` after `buffer.encode(b)`: b itself (null for the
      empty buffer), with the cursor just past the bytes preencode counted. */
  lemma {:induction false} BufferRoundTrip(b: Maybe<seq<byte>>, buf: seq<byte>, at: nat)
    requires b.Some? ==> |b.value| <= MaxSafe
    requires at + BufferSize(b) <= |buf| && buf[at..at + BufferSize(b)] == BufferBytes(b)
    ensures BufferParse(buf, at) == Parsed(Ok(BufferDecoded(b)), at + BufferSize(b))
  {
    if b.Null? || b.value == [] {
      assert buf[at] == BufferBytes(b)[0] == 0;
      assert UintParse(buf, at) == Parsed(Ok(0), at + 1);
    } else {
      BufferPrefixParses(b.value, buf, at);
      BufferBodyStored(b.value, buf, at);
    }
  }

  /** The length prefix of a stored non-empty buffer reads back. */
  lemma {:induction false} BufferPrefixParses(d: seq<byte>, buf: seq<byte>, at: nat)
    requires |d| <= MaxSafe
    requires at + UintSize(|d|) + |d| <= |buf| && buf[at..at + UintSize(|d|) + |d|] == UintBytes(|d|) + d
    ensures UintParse(buf, at) == Parsed(Ok(|d|), at + UintSize(|d|))
  {
    var w := UintSize(|d|);
    assert buf[at..at + w] == (UintBytes(|d|) + d)[..w] == UintBytes(|d|);
    assert Pow256(8) == 0x1_0000_0000_0000_0000;
    UintRoundTrip(|d|, buf, at);
  }

  /** The bytes after the length prefix of a stored buffer are its data. */
  lemma {:induction false} BufferBodyStored(d: seq<byte>, buf: seq<byte>, at: nat)
    requires at + UintSize(|d|) + |d| <= |buf| && buf[at..at + UintSize(|d|) + |d|] == UintBytes(|d|) + d
    ensures buf[at + UintSize(|d|)..at + UintSize(|d|) + |d|] == d
  {
    var w := UintSize(|d|);
    assert buf[at + w..at + w + |d|] == (UintBytes(|d|) + d)[w..];
  }

  /** A buffer whose bytes are cut short anywhere is rejected. */
  lemma {:induction false} BufferTruncated(b: Maybe<seq<byte>>, k: nat)
    requires b.Some? ==> |b.value| <= MaxSafe
    requires k < BufferSize(b)
    ensures BufferParse(BufferBytes(b)[..k], 0).result.Err?
  {
    var bs := BufferBytes(b)[..k];
    if b.Some? && b.value != [] {
      var d := b.value;
      var w := UintSize(|d|);
      if k < w {
        assert bs == UintBytes(|d|)[..k];
        UintTruncated(|d|, k);
      } else {
        assert bs[..w] == UintBytes(|d|);
        assert Pow256(8) == 0x1_0000_0000_0000_0000;
        UintRoundTrip(|d|, bs, 0);
      }
    }
  }

  /** `buffer.preencode`. */
  method BufferPreencode(st: State, b: Maybe<seq<byte>>)
    modifies st`end
    ensures st.end == old(st.end) + BufferSize(b)
  {
    if b.Some? {
      UintPreencode(st, |b.value|);
      st.end := st.end + |b.value|;
    } else {
      st.end := st.end + 1;
    }
  }

  /** `buffer.encode`: the prefix is stored before `buffer.set` can throw. */
  method BufferEncode(st: State, b: Maybe<seq<byte>>) returns (s: Status)
    requires st.buffer != null
    modifies st`start, st.buffer
    ensures s == (if b.Null? || old(st.start) + BufferSize(b) <= st.buffer.Length then Done else Thrown(RangeError))
    ensures s.Done? ==> st.buffer[..] == Overlay(old(st.buffer[..]), old(st.start), BufferBytes(b))
    ensures s.Done? ==> st.start == old(st.start) + BufferSize(b)
    ensures !s.Done? ==> st.buffer[..] == Overlay(old(st.buffer[..]), old(st.start), UintBytes(|b.value|))
    ensures !s.Done? ==> st.start == old(st.start) + UintSize(|b.value|)
  {
    if b.Some? {
      UintEncode(st, |b.value|);
      s := st.SetBytes(b.value);
      if s.Done? {
        OverlayAppend(old(st.buffer[..]), old(st.start), UintBytes(|b.value|), b.value);
        st.start := st.start + |b.value|;
      }
    } else {
      st.PutByte(0);
      s := Done;
    }
  }

  /** `buffer.decode`. */
  method BufferDecode(st: State) returns (r: Result<Maybe<seq<byte>>>)
    requires st.buffer != null
    modifies st`start
    ensures Parsed(r, st.start) == BufferParse(st.buffer[..], old(st.start))
  {
    var len := UintDecode(st);
    if len.Err? {
      return Err(len.error);
    }
    if len.value == 0 {
      return Ok(Null);
    }
    var from := st.start;
    st.start := st.start + len.value;
    if st.start > st.buffer.Length {
      return Err(OutOfBounds);
    }
    r := Ok(Some(st.buffer[from..st.start]));
  }

  // raw: the bytes as they are, up to the end of the region

  /** What `raw.decode` returns: `subarray(start, end)`, which clamps both
      ends to the buffer and is empty when they cross; the cursor jumps to
      `end`. */
  function RawParse(buf: seq<byte>, at: nat, end: nat): Parsed<seq<byte>>
  {
    var lo := if at < |buf| then at else |buf|;
    var hi := if end < |buf| then end else |buf|;
    Parsed(Ok(if lo <= hi then buf[lo..hi] else []), end)
  }

  /** `raw.decode` over a region that holds exactly the bytes `raw.encode`
      stored returns them. */
  lemma {:induction false} RawRoundTrip(b: seq<byte>, buf: seq<byte>, at: nat)
    requires at + |b| <= |buf| && buf[at..at + |b|] == b
    ensures RawParse(buf, at, at + |b|) == Parsed(Ok(b), at + |b|)
  {
  }

  /** `raw.preencode`. */
  method RawPreencode(st: State, b: seq<byte>)
    modifies st`end
    ensures st.end == old(st.end) + |b|
  {
    st.end := st.end + |b|;
  }

  /** `raw.encode`: `buffer.set`, then the cursor moves. */
  method RawEncode(st: State, b: seq<byte>) returns (s: Status)
    requires st.buffer != null
    modifies st`start, st.buffer
    ensures s == (if old(st.start) + |b| <= st.buffer.Length then Done else Thrown(RangeError))
    ensures st.buffer[..] == if s.Done? then Overlay(old(st.buffer[..]), old(st.start), b) else old(st.buffer[..])
    ensures st.start == if s.Done? then old(st.start) + |b| else old(st.start)
  {
    s := st.SetBytes(b);
    if s.Done? {
      st.start := st.start + |b|;
    }
  }

  /** `raw.decode`. */
  method RawDecode(st: State) returns (r: Result<seq<byte>>)
    requires st.buffer != null
    modifies st`start
    ensures Parsed(r, st.start) == RawParse(st.buffer[..], old(st.start), st.end)
    ensures st.end == old(st.end)
  {
    var lo := if st.start < st.buffer.Length then st.start else st.buffer.Length;
    var hi := if st.end < st.buffer.Length then st.end else st.buffer.Length;
    r := Ok(if lo <= hi then st.buffer[lo..hi] else []);
    st.start := st.end;
  }

  // bool

  /** What `bool.decode` returns: true exactly for the byte 1. */
  function BoolParse(buf: seq<byte>, at: nat): Parsed<bool>
  {
    if at >= |buf| then Parsed(Err(OutOfBounds), at) else Parsed(Ok(buf[at] == 1), at + 1)
  }

  /** `bool.decode` after `bool.encode(b)` returns b and consumes one byte. */
  lemma {:induction false} BoolRoundTrip(b: bool, buf: seq<byte>, at: nat)
    requires at < |buf| && buf[at] == (if b then 1 else 0)
    ensures BoolParse(buf, at) == Parsed(Ok(b), at + 1)
  {
  }

  /** `bool.preencode`. */
  method BoolPreencode(st: State, b: bool)
    modifies st`end
    ensures st.end == old(st.end) + 1
  {
    st.end := st.end + 1;
  }

  /** `bool.encode`. */
  method BoolEncode(st: State, b: bool)
    requires st.buffer != null
    modifies st`start, st.buffer
    ensures st.buffer[..] == Overlay(old(st.buffer[..]), old(st.start), [if b then 1 else 0])
    ensures st.start == old(st.start) + 1
  {
    st.PutByte(if b then 1 else 0);
  }

  /** `bool.decode`. */
  method BoolDecode(st: State) returns (r: Result<bool>)
    requires st.buffer != null
    modifies st`start
    ensures Parsed(r, st.start) == BoolParse(st.buffer[..], old(st.start))
  {
    if st.start >= st.buffer.Length {
      return Err(OutOfBounds);
    }
    r := Ok(st.buffer[st.start] == 1);
    st.start := st.start + 1;
  }

  // fixed(n), fixed32 = fixed(32), fixed64 = fixed(64)

  /** What `fixed(n).decode` returns: the next n bytes, or a throw when
      `subarray` comes back shorter; the cursor has moved by n either way. */
  function FixedParse(buf: seq<byte>, at: nat, n: nat): Parsed<seq<byte>>
  {
    if at + n <= |buf| then Parsed(Ok(buf[at..at + n]), at + n)
    else if n == 0 then Parsed(Ok([]), at)
    else Parsed(Err(OutOfBounds), at + n)
  }

  /** `fixed(n).decode` after `fixed(n).encode(s)` with |s| = n returns s;
      fewer than n remaining bytes always throw. */
  lemma {:induction false} FixedRoundTrip(s: seq<byte>, buf: seq<byte>, at: nat)
    requires at + |s| <= |buf| && buf[at..at + |s|] == s
    ensures FixedParse(buf, at, |s|) == Parsed(Ok(s), at + |s|)
    ensures forall k :: at <= k < at + |s| ==> FixedParse(buf[..k], at, |s|).result == Err(OutOfBounds)
  {
  }

  /** `fixed(n).preencode`: n bytes whatever the value. */
  method FixedPreencode(st: State, n: nat, s: seq<byte>)
    modifies st`end
    ensures st.end == old(st.end) + n
  {
    st.end := st.end + n;
  }

  /** `fixed(n).encode`: `buffer.set(s)` stores all of s (which may throw),
      then the cursor moves by n, not by the length of s. */
  method FixedEncode(st: State, n: nat, s: seq<byte>) returns (r: Status)
    requires st.buffer != null
    modifies st`start, st.buffer
    ensures r == (if old(st.start) + |s| <= st.buffer.Length then Done else Thrown(RangeError))
    ensures st.buffer[..] == if r.Done? then Overlay(old(st.buffer[..]), old(st.start), s) else old(st.buffer[..])
    ensures st.start == if r.Done? then old(st.start) + n else old(st.start)
  {
    r := st.SetBytes(s);
    if r.Done? {
      st.start := st.start + n;
    }
  }

  /** `fixed(n).decode`. */
  method FixedDecode(st: State, n: nat) returns (r: Result<seq<byte>>)
    requires st.buffer != null
    modifies st`start
    ensures Parsed(r, st.start) == FixedParse(st.buffer[..], old(st.start), n)
  {
    var from := st.start;
    var lo := if from < st.buffer.Length then from else st.buffer.Length;
    var hi := if from + n < st.buffer.Length then from + n else st.buffer.Length;
    var b := st.buffer[lo..hi];
    st.start := st.start + n;
    if |b| != n {
      return Err(OutOfBounds);
    }
    r := Ok(b);
  }
}
