/** signed-lexint.js: a sign byte (1 for num >= 0, 0 for num < 0), then
    the lexint encoding of |num|, whose bytes are XORed with 0xff for a
    negative num so that larger magnitudes sort first. */
module SignedLexint {
  import opened Wire
  import opened Cursor
  import Lexint

  function Abs(n: int): nat
  {
    if n < 0 then -n else n
  }

  /** Bytes `preencode` adds: the sign byte and the lexint of |num|. */
  function SignedSize(n: int): nat
    requires Abs(n) < Lexint.Limit
  {
    1 + Lexint.LexSize(Abs(n))
  }

  /** The wire form: sign byte, then lexint(|n|), inverted when n < 0. */
  function SignedBytes(n: int): (r: seq<byte>)
    requires Abs(n) < Lexint.Limit
    ensures |r| == SignedSize(n)
  {
    if n >= 0 then [1] + Lexint.LexBytes(n) else [0] + Invert(Lexint.LexBytes(-n))
  }

  /** Negatives sort before non-negatives, and within each sign the
      byte-wise order of encodings is numeric order. */
  lemma {:induction false} Order(a: int, b: int)
    requires Abs(a) < Lexint.Limit && Abs(b) < Lexint.Limit && a < b
    ensures LexLess(SignedBytes(a), SignedBytes(b))
  {
    var ea, eb := SignedBytes(a), SignedBytes(b);
    if a >= 0 {
      Lexint.Order(a, b);
      assert ea[1..] == Lexint.LexBytes(a) && eb[1..] == Lexint.LexBytes(b);
    } else if b < 0 {
      Lexint.Order(-b, -a);
      Lexint.PrefixFree(-b, -a);
      InvertReversesOrder(Lexint.LexBytes(-b), Lexint.LexBytes(-a));
      assert ea[1..] == Invert(Lexint.LexBytes(-a)) && eb[1..] == Invert(Lexint.LexBytes(-b));
    }
  }

  /** The buffer after `buffer[i] = buffer[i] ^ 0xff` for every absolute
      index lo <= i < hi; stores beyond the buffer are dropped. */
  function InvertRange(buf: seq<byte>, lo: nat, hi: nat): (r: seq<byte>)
    ensures |r| == |buf|
  {
    seq(|buf|, i requires 0 <= i < |buf| => if lo <= i < hi then Flip(buf[i]) else buf[i])
  }

  /** Inverting the bytes of a value stored at `at` is storing the inverted
      value. */
  lemma {:induction false} InvertStored(buf: seq<byte>, at: nat, bs: seq<byte>)
    requires at + |bs| <= |buf|
    ensures InvertRange(Overlay(buf, at, bs), at, at + |bs|) == Overlay(buf, at, Invert(bs))
  {
  }

  /** The effect of `encode(state, num)` with `start = at`: the sign byte,
      then lexint's encode of |num| (which may throw, leaving what it stored
      so far), then for a negative num the inversion of the absolute
      indices 1 .. end-1. */
  function EncodeEffect(buf: seq<byte>, at: nat, end: nat, n: int): Effect
    requires Abs(n) < Lexint.Limit
  {
    var signed := Overlay(buf, at, [if n >= 0 then 1 else 0]);
    var e := Lexint.EncodeEffect(signed, at + 1, end, Abs(n));
    if e.status.Thrown? || n >= 0 then e
    else Effect(Done, InvertRange(e.buffer, 1, end), e.start)
  }

  /** A value of magnitude below 256 encoded at the start of a buffer of
      exactly its size is stored as `SignedBytes`. */
  lemma {:induction false} EncodeSmallAtStart(n: int, buf: seq<byte>)
    requires Abs(n) < 256 && |buf| == SignedSize(n)
    ensures EncodeEffect(buf, 0, |buf|, n) == Effect(Done, SignedBytes(n), |buf|)
  {
    var sign: byte := if n >= 0 then 1 else 0;
    var lex := Lexint.LexBytes(Abs(n));
    OverlayAppend(buf, 0, [sign], lex);
    OverlayWhole(buf, [sign] + lex);
    if n < 0 {
      InvertStored([sign] + lex, 1, lex);
      OverlayWhole([sign] + lex, [sign] + Invert(lex));
    }
  }

  /** Every magnitude from 256 on throws, even at the start of a buffer of
      exactly its size: lexint's DataView is entered at `start = 1`. */
  lemma {:induction false} EncodeThrowsFrom256(n: int, buf: seq<byte>)
    requires 256 <= Abs(n) < Lexint.Limit && |buf| == SignedSize(n)
    ensures EncodeEffect(buf, 0, |buf|, n).status == Thrown(RangeError)
  {
  }

  /** A negative number encoded anywhere but index 0: the inversion over
      the absolute indices 1 .. end-1 also flips the value's own sign byte
      to 255 and every byte between index 1 and the value; only byte 0
      keeps its contents. */
  lemma {:induction false} NegativeAwayFromStart(n: int, buf: seq<byte>, at: nat, end: nat)
    requires n < 0 && Abs(n) < Lexint.Limit && 1 <= at
    requires EncodeEffect(buf, at, end, n).status.Done?
    ensures EncodeEffect(buf, at, end, n).buffer
            == InvertRange(Overlay(buf, at, [0] + Lexint.LexBytes(-n)), 1, end)
    ensures at < |buf| ==> EncodeEffect(buf, at, end, n).buffer[at] == 255
    ensures forall j :: 1 <= j < at && j < |buf| ==> EncodeEffect(buf, at, end, n).buffer[j] == Flip(buf[j])
    ensures 0 < |buf| ==> EncodeEffect(buf, at, end, n).buffer[0] == buf[0]
  {
    var lex := Lexint.LexBytes(-n);
    OverlayAppend(buf, at, [0], lex);
  }

  /** So a negative number from -250 to -5 encoded away from index 0 reads
      back as a positive number: the flipped sign byte is non-zero, and the
      magnitude byte is a one-byte lexint, inverted when it lies before
      `end` (255 + n) and left as is when it does not (-n). */
  lemma {:induction false} NegativeAwayFromStartDecodes(n: int, buf: seq<byte>, at: nat, end: nat)
    requires -250 <= n <= -5 && 1 <= at && at + 2 <= |buf|
    requires EncodeEffect(buf, at, end, n).status.Done?
    ensures DecodeEffect(EncodeEffect(buf, at, end, n).buffer, at, end).parsed
            == Parsed(Ok(Int(if at + 1 < end then 255 + n else -n)), at + 2)
  {
    NegativeAwayFromStart(n, buf, at, end);
    var stored := Overlay(buf, at, [0] + Lexint.LexBytes(-n));
    assert stored[at + 1] == (-n) as byte;
  }

  /** -5 encoded at index 1 of [7, 0, 0] with end 3 is stored as
      [7, 255, 250], which decodes as 250. */
  lemma {:induction false} SignFlipExample()
    ensures EncodeEffect([7, 0, 0], 1, 3, -5) == Effect(Done, [7, 255, 250], 3)
    ensures DecodeEffect([7, 255, 250], 1, 3).parsed == Parsed(Ok(Int(250)), 3)
  {
    OverlayAppend([7, 0, 0], 1, [0], [5]);
    assert Overlay([7, 0, 0], 1, [0, 5]) == [7, 0, 5];
    assert InvertRange([7, 0, 5], 1, 3) == [7, 255, 250];
  }

  /** What `decode` can return: a signed number, NaN, or a value of the
      floating tier. */
  datatype Decoded = Int(i: int) | NaN | BigTier

  /** The decode result together with the buffer, which decode inverts in
      place when the sign byte is 0 (or missing). */
  datatype DecodeOutcome = DecodeOutcome(parsed: Parsed<Decoded>, buffer: seq<byte>)

  /** The effect of `decode(state)` with `start = at`. */
  function DecodeEffect(buf: seq<byte>, at: nat, end: nat): DecodeOutcome
  {
    var positive := at < |buf| && buf[at] != 0;
    var buf' := if positive then buf else InvertRange(buf, 1, end);
    var p := Lexint.Parse(buf', at + 1);
    var r: Result<Decoded> :=
      if p.result.Err? then Err(p.result.error)
      else match p.result.value
        case Value(v) => Ok(Int(if positive then v else -(v as int)))
        case BigTier => Ok(BigTier)
        case _ => Ok(NaN);
    DecodeOutcome(Parsed(r, p.next), buf')
  }

  /** At the start of a buffer holding exactly one encoding, decode returns
      the number for every magnitude below 2^32, and leaves behind the
      encoding with its magnitude bytes un-inverted. */
  lemma {:induction false} RoundTrip(n: int)
    requires Abs(n) < Lexint.Limit
    ensures DecodeEffect(SignedBytes(n), 0, SignedSize(n)).parsed == Parsed(Ok(Int(n)), SignedSize(n))
    ensures DecodeEffect(SignedBytes(n), 0, SignedSize(n)).buffer
            == [if n >= 0 then 1 else 0] + Lexint.LexBytes(Abs(n))
  {
    var e, lex := SignedBytes(n), Lexint.LexBytes(Abs(n));
    var plain := [if n >= 0 then 1 else 0] + lex;
    if n < 0 {
      assert InvertRange(e, 1, |e|) == plain;
    }
    assert plain[1..1 + |lex|] == lex;
    Lexint.RoundTrip(Abs(n), plain, 1);
  }

  /** `preencode`. */
  method Preencode(st: State, num: int)
    requires Abs(num) < Lexint.Limit
    modifies st`end
    ensures st.end == old(st.end) + SignedSize(num)
  {
    st.end := st.end + 1;
    Lexint.Preencode(st, if num >= 0 then num else -num);
  }

  /** The in-place loop `for (i = lo; i < hi; i++) buffer[i] ^= 0xff`. */
  method InvertInPlace(st: State, lo: nat, hi: nat)
    requires st.buffer != null
    modifies st.buffer
    ensures st.buffer[..] == InvertRange(old(st.buffer[..]), lo, hi)
  {
    var buf := st.buffer;
    var i := lo;
    while i < hi
      invariant lo <= i || lo >= hi
      invariant forall j :: 0 <= j < buf.Length ==>
        buf[j] == if lo <= j < i && j < hi then Flip(old(buf[j])) else old(buf[j])
    {
      if i < buf.Length {
        buf[i] := Flip(buf[i]);
      }
      i := i + 1;
    }
  }

  /** `encode`, as written. */
  method Encode(st: State, num: int) returns (s: Status)
    requires st.buffer != null && Abs(num) < Lexint.Limit
    modifies st`start, st.buffer
    ensures Effect(s, st.buffer[..], st.start) == EncodeEffect(old(st.buffer[..]), old(st.start), st.end, num)
  {
    var positive := num >= 0;
    st.PutByte(if positive then 1 else 0);
    s := Lexint.Encode(st, if positive then num else -num);
    if s.Done? && !positive {
      InvertInPlace(st, 1, st.end);
    }
  }

  /** `decode`, as written: the inversion happens in the caller's buffer. */
  method Decode(st: State) returns (r: Result<Decoded>)
    requires st.buffer != null
    modifies st`start, st.buffer
    ensures Parsed(r, st.start) == DecodeEffect(old(st.buffer[..]), old(st.start), st.end).parsed
    ensures st.buffer[..] == DecodeEffect(old(st.buffer[..]), old(st.start), st.end).buffer
  {
    var positive := st.start < st.buffer.Length && st.buffer[st.start] != 0;
    st.start := st.start + 1;
    if !positive {
      InvertInPlace(st, 1, st.end);
    }
    var v := Lexint.Decode(st);
    if v.Err? {
      return Err(v.error);
    }
    match v.value {
      case Value(m) => r := Ok(Int(if positive then m else -(m as int)));
      case BigTier => r := Ok(BigTier);
      case _ => r := Ok(NaN);
    }
  }

  /** `encode` with lexint's DataView laid from the cursor and the
      inversion confined to the value's own bytes: a value that fits before
      `end` is stored as `SignedBytes` at any offset. */
  method EncodeCorrected(st: State, num: int) returns (s: Status)
    requires st.buffer != null && Abs(num) < Lexint.Limit
    modifies st`start, st.buffer
    ensures old(st.start) + SignedSize(num) <= st.end <= st.buffer.Length ==> s.Done?
    ensures s.Done? ==> st.buffer[..] == Overlay(old(st.buffer[..]), old(st.start), SignedBytes(num))
    ensures s.Done? ==> st.start == old(st.start) + SignedSize(num)
  {
    var from := st.start;
    var positive := num >= 0;
    var lex := Lexint.LexBytes(Abs(num));
    st.PutByte(if positive then 1 else 0);
    s := Lexint.EncodeAnchored(st, Abs(num));
    if s.Done? {
      OverlayAppend(old(st.buffer[..]), from, [if positive then 1 else 0], lex);
      if !positive {
        InvertInPlace(st, from + 1, st.start);
        if from + 1 + |lex| <= st.buffer.Length {
          InvertStored(Overlay(old(st.buffer[..]), from, [0]), from + 1, lex);
          OverlayAppend(old(st.buffer[..]), from, [0], Invert(lex));
        } else {
          assert st.buffer[..] == Overlay(old(st.buffer[..]), from, SignedBytes(num));
        }
      }
    }
  }
}
