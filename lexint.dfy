/** The order-preserving integer encoding of lexint.js for numbers below
    2^32. Numbers below 251 are one byte; larger ones are a tag byte
    251..254 followed by `num - 251` big-endian in 1..4 bytes. The
    floating-point tier for 2^32 and above is represented only by its tag
    byte 0xff. */
module Lexint {
  import opened Wire
  import opened Cursor

  /** `max`: the first tag byte, and the offset subtracted from tagged values. */
  const Max: nat := 251
  /** The first number of the floating tier. */
  const Limit: nat := 0x1_0000_0000
  /** The tag byte of the floating tier. */
  const BigTag: byte := 0xff

  /** Payload bytes that follow the tag of n (0: n is its own byte). */
  function Payload(n: nat): nat
  {
    if n < Max then 0 else if n < 0x100 then 1 else if n < 0x1_0000 then 2
    else if n < 0x100_0000 then 3 else 4
  }

  /** Bytes `preencode` adds for n. */
  function LexSize(n: nat): nat
    requires n < Limit
  {
    if n < 251 then 1 else if n < 256 then 2 else if n < 0x1_0000 then 3
    else if n < 0x100_0000 then 4 else 5
  }

  /** Bytes `encode` stores for n: n itself below 251, else the tag
      `max + tier` and `num - max` big-endian. Its length is what
      `preencode` counts. */
  function LexBytes(n: nat): (r: seq<byte>)
    requires n < Limit
    ensures |r| == LexSize(n) == Payload(n) + 1
  {
    var k := Payload(n);
    if k == 0 then [n as byte] else [(250 + k) as byte] + BE(n - Max, k)
  }

  /** The length of an encoding follows from its first byte alone. */
  function TierLength(first: byte): nat
  {
    if first < 251 then 1 else first as nat - 249
  }

  /** The first byte fixes the length: below 251 one byte, tag 251..254
      two to five bytes; no encoding starts with the floating tag. */
  lemma {:induction false} FirstByteFixesLength(n: nat)
    requires n < Limit
    ensures LexBytes(n)[0] != BigTag
    ensures |LexBytes(n)| == TierLength(LexBytes(n)[0])
  {
  }

  /** Distinct numbers have encodings neither of which is a prefix of the
      other, so a stream of encodings splits in one way only. */
  lemma {:induction false} PrefixFree(a: nat, b: nat)
    requires a < Limit && b < Limit && a != b
    ensures |LexBytes(a)| <= |LexBytes(b)| ==> LexBytes(a) != LexBytes(b)[..|LexBytes(a)|]
  {
    var ea, eb := LexBytes(a), LexBytes(b);
    if |ea| <= |eb| && ea == eb[..|ea|] {
      assert ea[0] == eb[0];
      FirstByteFixesLength(a);
      FirstByteFixesLength(b);
      assert eb[..|ea|] == eb;
      RoundTrip(a, ea, 0);
      RoundTrip(b, eb, 0);
    }
  }

  /** Unsigned byte-wise order of encodings is numeric order. */
  lemma {:induction false} Order(a: nat, b: nat)
    requires a < b < Limit
    ensures LexLess(LexBytes(a), LexBytes(b))
  {
    var ea, eb := LexBytes(a), LexBytes(b);
    var ka, kb := Payload(a), Payload(b);
    if ea[0] == eb[0] {
      assert ka == kb && ka > 0;
      assert a - Max < b - Max < Pow256(ka) by {
        assert Pow256(1) == 0x100 && Pow256(2) == 0x1_0000;
        assert Pow256(3) == 0x100_0000 && Pow256(4) == 0x1_0000_0000;
      }
      BEOrder(a - Max, b - Max, ka);
      assert ea[1..] == BE(a - Max, ka) && eb[1..] == BE(b - Max, kb);
    }
  }

  /** Every encoding of the floating tier starts with 0xff and so sorts
      after every encoding of a number below 2^32. */
  lemma {:induction false} BigTierSortsLast(n: nat, big: seq<byte>)
    requires n < Limit && big != [] && big[0] == BigTag
    ensures LexLess(LexBytes(n), big)
  {
    FirstByteFixesLength(n);
  }

  // decode

  /** What `decode` can return: a number, NaN (`undefined + max`), the
      `undefined` of a missing flag byte, or a value of the floating tier,
      which this model does not decode. */
  datatype Decoded = Value(n: nat) | NaN | Undefined | BigTier

  /** What `decode` returns with `state.start` at `at`, and where it leaves
      the cursor. Reads past the end give `undefined`; only the DataView
      reads of tags 252..254 are bounds-checked, against the buffer's
      length. After the floating tag the cursor is left behind the tag. */
  function Parse(buf: seq<byte>, at: nat): Parsed<Decoded>
  {
    if at >= |buf| then Parsed(Ok(Undefined), at + 1)
    else
      var flag, p := buf[at], at + 1;
      if flag < 251 then Parsed(Ok(Value(flag as nat)), p)
      else if flag == 251 then
        Parsed(Ok(if p < |buf| then Value(buf[p] as nat + Max) else NaN), p + 1)
      else if flag == 252 then
        if p + 2 > |buf| then Parsed(Err(RangeError), p)
        else Parsed(Ok(Value(FromBE(buf[p..p + 2]) + Max)), p + 2)
      else if flag == 253 then
        var high := if p < |buf| then buf[p] as nat * 0x1_0000 else 0;
        if p + 3 > |buf| then Parsed(Err(RangeError), p + 1)
        else Parsed(Ok(Value(high + FromBE(buf[p + 1..p + 3]) + Max)), p + 3)
      else if flag == 254 then
        if p + 4 > |buf| then Parsed(Err(RangeError), p)
        else Parsed(Ok(Value(FromBE(buf[p..p + 4]) + Max)), p + 4)
      else Parsed(Ok(BigTier), p)
  }

  /** The three payload bytes of tag 253 are the high byte and two
      big-endian low bytes. */
  lemma {:induction false} BE3Split(x: nat)
    requires x < 0x100_0000
    ensures BE(x, 3) == [(x / 0x1_0000) as byte] + BE(x % 0x1_0000, 2)
    ensures FromBE(BE(x, 3)[1..]) == x % 0x1_0000
  {
    assert BE(x, 3) == [((x / 0x1_0000) % 256) as byte, ((x / 256) % 256) as byte, (x % 256) as byte];
    assert BE(x % 0x1_0000, 2) == [(((x % 0x1_0000) / 256) % 256) as byte, ((x % 0x1_0000) % 256) as byte];
    assert Pow256(2) == 0x1_0000;
    BERoundTrip(x % 0x1_0000, 2);
  }

  /** `decode` after `encode(n)` returns n and consumes exactly the bytes
      `preencode` counted. */
  lemma {:induction false} RoundTrip(n: nat, buf: seq<byte>, at: nat)
    requires n < Limit
    requires at + LexSize(n) <= |buf| && buf[at..at + LexSize(n)] == LexBytes(n)
    ensures Parse(buf, at) == Parsed(Ok(Value(n)), at + LexSize(n))
  {
    var e, k := LexBytes(n), Payload(n);
    assert buf[at] == e[0];
    if k > 0 {
      var x := n - Max;
      assert buf[at + 1..at + 1 + k] == e[1..] == BE(x, k);
      assert x < Pow256(k) by {
        assert Pow256(1) == 0x100 && Pow256(2) == 0x1_0000;
        assert Pow256(3) == 0x100_0000 && Pow256(4) == 0x1_0000_0000;
      }
      BERoundTrip(x, k);
      if k == 1 {
        assert buf[at + 1] == e[1];
      } else if k == 3 {
        BE3Split(x);
        assert buf[at + 1] == e[1] == (x / 0x1_0000) as byte;
        assert buf[at + 2..at + 4] == e[2..] == BE(x, 3)[1..];
      }
    }
  }

  /** Tags 252..254 cut short before their last payload byte throw a
      RangeError (the DataView read does not fit). */
  lemma {:induction false} TruncatedDataViewTiers(n: nat, k: nat)
    requires n < Limit && Payload(n) >= 2 && 1 <= k < LexSize(n)
    ensures Parse(LexBytes(n)[..k], 0).result == Err(RangeError)
  {
    assert LexBytes(n)[..k][0] == LexBytes(n)[0];
  }

  /** The two unchecked paths: a lone tag 251 decodes to NaN and an empty
      input to `undefined`; neither throws. */
  lemma {:induction false} UncheckedTiers()
    ensures Parse([251], 0).result == Ok(NaN)
    ensures Parse([], 0).result == Ok(Undefined)
  {
  }

  /** Decoding with every short read rejected: the decoder `Parse` would be
      had each of its reads been bounds-checked. */
  function ParseChecked(buf: seq<byte>, at: nat): Parsed<Decoded>
  {
    if at >= |buf| then Parsed(Err(OutOfBounds), at)
    else if buf[at] == 251 && at + 2 > |buf| then Parsed(Err(OutOfBounds), at + 1)
    else Parse(buf, at)
  }

  /** The checked decoder rejects every truncated encoding, in every tier,
      and still decodes every complete one. */
  lemma {:induction false} CheckedTruncationSafe(n: nat, k: nat)
    requires n < Limit && k < LexSize(n)
    ensures ParseChecked(LexBytes(n)[..k], 0).result.Err?
    ensures ParseChecked(LexBytes(n), 0) == Parsed(Ok(Value(n)), LexSize(n))
  {
    if k > 0 {
      assert LexBytes(n)[..k][0] == LexBytes(n)[0];
    }
    RoundTrip(n, LexBytes(n), 0);
  }

  /** `decode`. */
  method Decode(st: State) returns (r: Result<Decoded>)
    requires st.buffer != null
    modifies st`start
    ensures Parsed(r, st.start) == Parse(st.buffer[..], old(st.start))
  {
    var len := st.buffer.Length;
    if st.start >= len {
      st.start := st.start + 1;
      return Ok(Undefined);
    }
    var flag := st.buffer[st.start];
    st.start := st.start + 1;
    if flag < 251 {
      return Ok(Value(flag as nat));
    }
    if flag == 251 {
      r := Ok(if st.start < len then Value(st.buffer[st.start] as nat + Max) else NaN);
      st.start := st.start + 1;
    } else if flag == 252 {
      if st.start + 2 > len {
        return Err(RangeError);
      }
      r := Ok(Value(FromBE(st.buffer[st.start..st.start + 2]) + Max));
      st.start := st.start + 2;
    } else if flag == 253 {
      var high := if st.start < len then st.buffer[st.start] as nat * 0x1_0000 else 0;
      st.start := st.start + 1;
      if st.start + 2 > len {
        return Err(RangeError);
      }
      r := Ok(Value(high + FromBE(st.buffer[st.start..st.start + 2]) + Max));
      st.start := st.start + 2;
    } else if flag == 254 {
      if st.start + 4 > len {
        return Err(RangeError);
      }
      r := Ok(Value(FromBE(st.buffer[st.start..st.start + 4]) + Max));
      st.start := st.start + 4;
    } else {
      r := Ok(BigTier);
    }
  }

  // preencode and encode

  /** `preencode` for numbers below 2^32. */
  method Preencode(st: State, num: nat)
    requires num < Limit
    modifies st`end
    ensures st.end == old(st.end) + LexSize(num)
  {
    if num < 251 {
      st.end := st.end + 1;
    } else if num < 256 {
      st.end := st.end + 2;
    } else if num < 0x1_0000 {
      st.end := st.end + 3;
    } else if num < 0x100_0000 {
      st.end := st.end + 4;
    } else {
      st.end := st.end + 5;
    }
  }

  /** Whether the DataView store of `encode` fits. The DataView is
      `end - start` bytes long from the start of the buffer but is written
      at the absolute `start`, so the tiers that use it need
      `2 * start + size <= end`. */
  predicate WindowFits(n: nat, at: nat, end: nat)
    requires n < Limit
  {
    Payload(n) <= 1 || 2 * at + LexSize(n) <= end
  }

  /** Bytes stored one at a time before the DataView store of n. */
  function PlainPrefix(n: nat): nat
  {
    if Payload(n) == 3 then 2 else 1
  }

  /** The effect of `encode(state, n)` as written, with `start = at`:
      building the DataView throws when `end - start` is negative or
      longer than the buffer; then the tag (and for tag 253 the high byte)
      is stored; then the DataView store throws unless the window fits. */
  function EncodeEffect(buf: seq<byte>, at: nat, end: nat, n: nat): (e: Effect)
    requires n < Limit
    ensures e.status.Done? ==> e.buffer == Overlay(buf, at, LexBytes(n)) && e.start == at + LexSize(n)
    ensures e.status.Done? <==> at <= end && end - at <= |buf| && WindowFits(n, at, end)
  {
    if at > end || end - at > |buf| then Effect(Thrown(RangeError), buf, at)
    else if WindowFits(n, at, end) then Effect(Done, Overlay(buf, at, LexBytes(n)), at + LexSize(n))
    else
      var k := PlainPrefix(n);
      Effect(Thrown(RangeError), Overlay(buf, at, LexBytes(n)[..k]), at + k)
  }

  /** A region of exactly the value's size, starting at 0, always fits:
      top-level encodes succeed. */
  lemma {:induction false} TopLevelFits(n: nat, buf: seq<byte>)
    requires n < Limit && |buf| == LexSize(n)
    ensures EncodeEffect(buf, 0, LexSize(n), n) == Effect(Done, LexBytes(n), LexSize(n))
  {
    OverlayWhole(buf, LexBytes(n));
  }

  /** Entered one byte into a region of exactly `1 + size` bytes, as
      signed-lexint does, every number from 256 on throws. */
  lemma {:induction false} WindowRejectsAfterOneByte(n: nat, buf: seq<byte>)
    requires 256 <= n < Limit && |buf| == 1 + LexSize(n)
    ensures EncodeEffect(buf, 1, 1 + LexSize(n), n).status == Thrown(RangeError)
  {
  }

  /** `view.setUint16/32(state.start, x)` on a view of `end - from` bytes
      laid from the start of the buffer: throws unless the store fits that
      window; does not move the cursor. */
  method ViewSet(st: State, from: nat, bs: seq<byte>) returns (s: Status)
    requires st.buffer != null && from <= st.end && st.end - from <= st.buffer.Length
    modifies st.buffer
    ensures s == (if st.start + |bs| <= st.end - from then Done else Thrown(RangeError))
    ensures st.buffer[..] == if s.Done? then Overlay(old(st.buffer[..]), st.start, bs) else old(st.buffer[..])
  {
    if st.start + |bs| > st.end - from {
      return Thrown(RangeError);
    }
    s := st.SetBytes(bs);
  }

  /** Plain stores through `state.buffer[state.start++]`, then one
      DataView store of `view`, after which the cursor moves past it. */
  method StoreThenView(st: State, from: nat, plain: seq<byte>, view: seq<byte>) returns (s: Status)
    requires st.buffer != null && st.start == from
    requires from <= st.end && st.end - from <= st.buffer.Length
    modifies st`start, st.buffer
    ensures s == (if from + |plain| + |view| <= st.end - from then Done else Thrown(RangeError))
    ensures s.Done? ==> st.buffer[..] == Overlay(old(st.buffer[..]), from, plain + view)
    ensures s.Done? ==> st.start == from + |plain| + |view|
    ensures s.Thrown? ==> st.buffer[..] == Overlay(old(st.buffer[..]), from, plain)
    ensures s.Thrown? ==> st.start == from + |plain|
  {
    st.PutBytes(plain);
    s := ViewSet(st, from, view);
    OverlayAppend(old(st.buffer[..]), from, plain, view);
    if s.Done? {
      st.start := st.start + |view|;
    }
  }

  /** `encode` for numbers below 2^32, as written. */
  method Encode(st: State, num: nat) returns (s: Status)
    requires st.buffer != null && num < Limit
    modifies st`start, st.buffer
    ensures Effect(s, st.buffer[..], st.start) == EncodeEffect(old(st.buffer[..]), old(st.start), st.end, num)
  {
    var x := num - Max;
    var from := st.start;
    if st.start > st.end || st.end - st.start > st.buffer.Length {
      return Thrown(RangeError);
    }
    var e := LexBytes(num);
    if num < Max {
      st.PutByte(num as byte);
      s := Done;
    } else if num < 256 {
      assert e == [251, x as byte];
      st.PutBytes([251, x as byte]);
      s := Done;
    } else if num < 0x1_0000 {
      assert e == [252] + BE(x, 2);
      s := StoreThenView(st, from, [252], BE(x, 2));
    } else if num < 0x100_0000 {
      BE3Split(x);
      assert e == [253, (x / 0x1_0000) as byte] + BE(x % 0x1_0000, 2);
      s := StoreThenView(st, from, [253, (x / 0x1_0000) as byte], BE(x % 0x1_0000, 2));
    } else {
      assert e == [254] + BE(x, 4);
      s := StoreThenView(st, from, [254], BE(x, 4));
    }
  }

  /** `encode` with the DataView laid from `state.start` rather than from
      the start of the buffer: the store then throws only when the value
      does not fit before `end`. */
  method EncodeAnchored(st: State, num: nat) returns (s: Status)
    requires st.buffer != null && num < Limit
    modifies st`start, st.buffer
    ensures s.Done? <==> old(st.start) + LexSize(num) <= st.end <= st.buffer.Length
                         || (Payload(num) <= 1 && old(st.start) <= st.end <= st.buffer.Length)
    ensures s.Done? ==> st.buffer[..] == Overlay(old(st.buffer[..]), old(st.start), LexBytes(num))
    ensures s.Done? ==> st.start == old(st.start) + LexSize(num)
  {
    if st.start > st.end || st.end > st.buffer.Length {
      return Thrown(RangeError);
    }
    if Payload(num) >= 2 && st.start + LexSize(num) > st.end {
      return Thrown(RangeError);
    }
    st.PutBytes(LexBytes(num));
    s := Done;
  }
}
