/** `uint32array` (index.js:87-127): a uint length prefix holding
    4·len with the pad count in its two low bits, zero pad bytes up to the
    next multiple of 4, then the words little-endian. */
module CompactTyped {
  import opened Wire
  import opened Cursor
  import opened CompactUint

  /** One element of a Uint32Array. */
  newtype uint32 = x: int | 0 <= x < 0x1_0000_0000

  /** Arrays whose `b.length << 2` stays a positive 32-bit integer. */
  const MaxWords: nat := 0x2000_0000

  /** `(4 - (x & 3)) & 3`: the bytes from x to the next multiple of 4. */
  function Pad(x: nat): (r: nat)
    ensures r < 4 && (x + r) % 4 == 0
  {
    (4 - x % 4) % 4
  }

  /** The words little-endian, as a little-endian host lays them out. */
  function WordsBytes(ws: seq<uint32>): (r: seq<byte>)
    ensures |r| == 4 * |ws|
  {
    if ws == [] then [] else LE(ws[0] as nat, 4) + WordsBytes(ws[1..])
  }

  /** The words a Uint32Array view over bs holds. */
  function Words(bs: seq<byte>): (r: seq<uint32>)
    requires |bs| % 4 == 0
    ensures |r| == |bs| / 4
  {
    if bs == [] then []
    else
      assert Pow256(4) == 0x1_0000_0000;
      [FromLE(bs[..4]) as uint32] + Words(bs[4..])
  }

  /** Viewing the laid-out bytes as words gives the words back. */
  lemma {:induction false} WordsOfWordsBytes(ws: seq<uint32>)
    ensures Words(WordsBytes(ws)) == ws
  {
    if ws != [] {
      var bs := WordsBytes(ws);
      assert bs[..4] == LE(ws[0] as nat, 4) && bs[4..] == WordsBytes(ws[1..]);
      LERoundTrip(ws[0] as nat, 4);
      WordsOfWordsBytes(ws[1..]);
    }
  }

  /** `b |= pad` for a pad below 4: only the two low bits change. */
  function OrLow(b: byte, pad: nat): (r: byte)
    requires pad < 4
    ensures b as int % 4 == 0 ==> r as int == b as int + pad
    ensures pad == 0 ==> r == b
    ensures r as int - r as int % 4 == b as int - b as int % 4
  {
    var lo := b as int % 4;
    var bits := (if lo / 2 == 1 || pad / 2 == 1 then 2 else 0) + (if lo % 2 == 1 || pad % 2 == 1 then 1 else 0);
    (b as int - lo + bits) as byte
  }

  /** Bytes `preencode` adds when `state.end` is e before the call. */
  function Size(e: nat, n: nat): nat
  {
    UintSize(4 * n) + Pad(e + UintSize(4 * n)) + 4 * n
  }

  /** The effect of `encode(state, ws)` with `start = at`: the prefix
      4·len, the pad ORed into the prefix byte that follows the tag (or into
      the lone prefix byte when there is no tag), the pad bytes one at a
      time, then a `set` of the word bytes that throws when they do not
      fit. */
  function EncodeEffect(buf: seq<byte>, at: nat, ws: seq<uint32>): (e: Effect)
    requires |ws| < MaxWords
    ensures e.status.Done? <==> at + Size(at, |ws|) <= |buf|
    ensures e.status.Done? ==> e.start == at + Size(at, |ws|)
    ensures e.status.Done? ==> (e.start - 4 * |ws|) % 4 == 0
    ensures |e.buffer| == |buf|
  {
    var padded := Padded(buf, at, |ws|);
    var q := DataStart(at, |ws|);
    if q + 4 * |ws| <= |buf| then Effect(Done, Overlay(padded, q, WordsBytes(ws)), q + 4 * |ws|)
    else Effect(Thrown(RangeError), padded, q)
  }

  /** Where the words begin when the prefix is written at `at`. */
  function DataStart(at: nat, n: nat): (r: nat)
    ensures r == at + Size(at, n) - 4 * n && r % 4 == 0
  {
    var p := at + UintSize(4 * n);
    p + Pad(p)
  }

  /** The buffer once the prefix is stored, the pad ORed into it and the
      pad bytes stored. */
  function Padded(buf: seq<byte>, at: nat, n: nat): (r: seq<byte>)
    ensures |r| == |buf|
  {
    var p := at + UintSize(4 * n);
    var pad := Pad(p);
    Overlay(OrPrefix(Overlay(buf, at, UintBytes(4 * n)), at, pad), p, Zeros(pad))
  }

  /** `buffer[s + (buffer[s] <= 0xfc ? 0 : 1)] |= pad`: the pad goes into
      the lone prefix byte, or into the byte after a tag. A missing
      `buffer[s]` compares false, and a store past the end is dropped. */
  function OrPrefix(buf: seq<byte>, at: nat, pad: nat): (r: seq<byte>)
    requires pad < 4
    ensures |r| == |buf|
  {
    var idx := if at < |buf| && buf[at] <= 0xfc then at else at + 1;
    if idx < |buf| then buf[idx := OrLow(buf[idx], pad)] else buf
  }

  /** The bytes `encode` lays down at `at` when it completes and len is not
      63 with a non-zero pad: the prefix 4·len + pad, the pad, the words. */
  function Image(at: nat, ws: seq<uint32>): seq<byte>
    requires |ws| < MaxWords && (|ws| != 63 || Pad(at + 1) == 0)
  {
    ImageHead(at, |ws|) + WordsBytes(ws)
  }

  /** Adding a pad below 4 to a multiple of 4 changes only the low byte of
      its little-endian form. */
  lemma {:induction false} LEAddPad(m: nat, pad: nat, k: nat)
    requires m % 4 == 0 && pad < 4 && k > 0
    ensures LE(m + pad, k) == LE(m, k)[0 := LE(m, k)[0] + pad as byte]
    ensures (LE(m, k)[0] as int) % 4 == 0
  {
    var q, r := m / 256, m % 256;
    assert m == 256 * q + r;
    var t := m / 4;
    assert m == 4 * t;
    DivModUnique(r, 4, t - 64 * q, 0);
    DivModUnique(m + pad, 256, q, r + pad);
  }

  /** ORing the pad into the prefix of 4·len yields the prefix of
      4·len + pad, except when len is 63 and the pad is not zero. */
  lemma {:induction false} PrefixTakesPad(n: nat, pad: nat)
    requires n < MaxWords && pad < 4 && (n != 63 || pad == 0)
    ensures var u := UintBytes(4 * n);
            var k := if u[0] <= 0xfc then 0 else 1;
            k < |u| && UintBytes(4 * n + pad) == u[k := OrLow(u[k], pad)]
  {
    var m := 4 * n;
    if m > 0xfc {
      if m <= 0xffff {
        LEAddPad(m, pad, 2);
      } else {
        LEAddPad(m, pad, 4);
      }
    }
  }

  /** The pad never changes the width of the prefix, except when len is
      63 and the pad is not zero. */
  lemma {:induction false} PadKeepsWidth(n: nat, pad: nat)
    requires n < MaxWords && pad < 4 && (n != 63 || pad == 0)
    ensures UintSize(4 * n + pad) == UintSize(4 * n)
  {
  }

  /** The OR turns the stored prefix of 4·len into the prefix of
      4·len + pad, except when len is 63 and the pad is not zero. */
  lemma {:induction false} OrPrefixOfPrefix(buf: seq<byte>, at: nat, n: nat, pad: nat)
    requires n < MaxWords && pad < 4 && (n != 63 || pad == 0)
    requires at + UintSize(4 * n) <= |buf|
    ensures OrPrefix(Overlay(buf, at, UintBytes(4 * n)), at, pad) == Overlay(buf, at, UintBytes(4 * n + pad))
  {
    PrefixTakesPad(n, pad);
    PadKeepsWidth(n, pad);
    var u := UintBytes(4 * n);
    var k := if u[0] <= 0xfc then 0 else 1;
    var prefixed := Overlay(buf, at, u);
    assert prefixed[at] == u[0] && prefixed[at + k] == u[k];
    assert OrPrefix(prefixed, at, pad) == prefixed[at + k := OrLow(u[k], pad)];
  }

  /** When the bytes fit and the prefix survives the OR, `encode` stores
      exactly `Image` and advances the cursor by what `preencode` added. */
  lemma {:induction false} EncodeLayout(buf: seq<byte>, at: nat, ws: seq<uint32>)
    requires |ws| < MaxWords && (|ws| != 63 || Pad(at + 1) == 0)
    requires at + Size(at, |ws|) <= |buf|
    ensures |Image(at, ws)| == Size(at, |ws|)
    ensures EncodeEffect(buf, at, ws) == Effect(Done, Overlay(buf, at, Image(at, ws)), at + Size(at, |ws|))
  {
    var n := |ws|;
    var pad := Pad(at + UintSize(4 * n));
    var head := ImageHead(at, n);
    PaddedLayout(buf, at, n);
    OverlayJoin(buf, at, head, WordsBytes(ws), Padded(buf, at, n), DataStart(at, n));
    EncodeCompletes(buf, at, ws);
  }

  /** The prefix and pad of `Image`. */
  function ImageHead(at: nat, n: nat): (r: seq<byte>)
    requires n < MaxWords && (n != 63 || Pad(at + 1) == 0)
    ensures at + |r| == DataStart(at, n)
  {
    var pad := Pad(at + UintSize(4 * n));
    PadKeepsWidth(n, pad);
    UintBytes(4 * n + pad) + Zeros(pad)
  }

  lemma {:induction false} EncodeCompletes(buf: seq<byte>, at: nat, ws: seq<uint32>)
    requires |ws| < MaxWords && at + Size(at, |ws|) <= |buf|
    ensures EncodeEffect(buf, at, ws)
      == Effect(Done, Overlay(Padded(buf, at, |ws|), DataStart(at, |ws|), WordsBytes(ws)), at + Size(at, |ws|))
  {
  }

  lemma {:induction false} OverlayJoin(buf: seq<byte>, at: nat, head: seq<byte>, tail: seq<byte>, mid: seq<byte>, q: nat)
    requires mid == Overlay(buf, at, head) && q == at + |head|
    ensures Overlay(mid, q, tail) == Overlay(buf, at, head + tail)
  {
    OverlayAppend(buf, at, head, tail);
  }

  /** Before the words, `encode` has stored the prefix of 4·len + pad and
      the pad bytes. */
  lemma {:induction false} PaddedLayout(buf: seq<byte>, at: nat, n: nat)
    requires n < MaxWords && (n != 63 || Pad(at + 1) == 0)
    requires at + Size(at, n) <= |buf|
    ensures Padded(buf, at, n) == Overlay(buf, at, ImageHead(at, n))
  {
    var p := at + UintSize(4 * n);
    var pad := Pad(p);
    PadKeepsWidth(n, pad);
    var v := UintBytes(4 * n + pad);
    var ored := OrPrefix(Overlay(buf, at, UintBytes(4 * n)), at, pad);
    assert Padded(buf, at, n) == Overlay(ored, p, Zeros(pad));
    OrPrefixOfPrefix(buf, at, n, pad);
    OverlayJoin(buf, at, v, Zeros(pad), ored, p);
    assert ImageHead(at, n) == v + Zeros(pad);
  }

  /** The words part of `decode`: len words at s, read through a
      zero-copy view when s is 4-aligned in the backing memory (which is
      assumed to end where the buffer ends) and through a zero-filled copy
      otherwise. The cursor passes the words before anything is checked;
      the view throws a RangeError when the words run past the buffer. */
  function WordsAt(buf: seq<byte>, s: nat, len: nat, offset: nat): Parsed<seq<uint32>>
  {
    var next := s + 4 * len;
    if (offset + s) % 4 == 0 && next > |buf| then Parsed(Err(RangeError), next)
    else Parsed(Ok(Words(Fetched(buf, s, len))), next)
  }

  /** The 4 * len bytes the words are made of: those from s on, with zeros
      for any that lie past the buffer (only the copy can reach those). */
  function Fetched(buf: seq<byte>, s: nat, len: nat): (r: seq<byte>)
    ensures |r| == 4 * len
    ensures s + 4 * len <= |buf| ==> r == buf[s..s + 4 * len]
  {
    var got := Subarray(buf, s, s + 4 * len);
    got + Zeros(4 * len - |got|)
  }

  /** What `decode` returns when `state.start` is `at` and the buffer sits
      at `offset` in its backing memory, and where it leaves the cursor. */
  function Parse(buf: seq<byte>, at: nat, offset: nat): Parsed<seq<uint32>>
  {
    AfterPrefix(buf, UintParse(buf, at), offset)
  }

  /** The rest of `decode` once the prefix has been read as u: a failed
      prefix fails the decode; otherwise len is `l >>> 2`, and `l & 3` pad
      bytes are skipped before the words. */
  function AfterPrefix(buf: seq<byte>, u: Parsed<nat>, offset: nat): Parsed<seq<uint32>>
  {
    if u.result.Err? then Parsed(Err(u.result.error), u.next)
    else
      var l := u.result.value;
      WordsAt(buf, u.next + l % 4, (l % 0x1_0000_0000) / 4, offset)
  }

  /** Whenever the words lie inside the buffer, the zero-copy view and the
      aligning copy give the same words: the offset of the buffer in its
      backing memory does not matter. */
  lemma {:induction false} OffsetIrrelevant(buf: seq<byte>, s: nat, len: nat, o1: nat, o2: nat)
    requires s + 4 * len <= |buf|
    ensures WordsAt(buf, s, len, o1) == WordsAt(buf, s, len, o2)
  {
  }

  /** Decoding what `encode` stored gives the words back, at every offset
      of the buffer in its backing memory, unless len is 63 with a non-zero
      pad. */
  lemma {:induction false} RoundTrip(ws: seq<uint32>, buf: seq<byte>, at: nat, offset: nat)
    requires |ws| < MaxWords && (|ws| != 63 || Pad(at + 1) == 0)
    requires at + Size(at, |ws|) <= |buf|
    ensures EncodeEffect(buf, at, ws).status == Done
    ensures Parse(EncodeEffect(buf, at, ws).buffer, at, offset) == Parsed(Ok(ws), at + Size(at, |ws|))
  {
    EncodeLayout(buf, at, ws);
    OverlayStored(buf, at, Image(at, ws));
    ImageRead(ws, Overlay(buf, at, Image(at, ws)), at, offset);
  }

  /** A stored `Image` decodes to its words. */
  lemma {:induction false} ImageRead(ws: seq<uint32>, buf: seq<byte>, at: nat, offset: nat)
    requires |ws| < MaxWords && (|ws| != 63 || Pad(at + 1) == 0)
    requires StoredAt(buf, at, Image(at, ws))
    ensures Parse(buf, at, offset) == Parsed(Ok(ws), at + |Image(at, ws)|)
  {
    ImageSplit(ws, buf, at);
    HeadParses(ws, buf, at);
    ImageWords(ws, buf, at, offset);
    ImageAfterPrefix(ws, buf, at, offset);
  }

  lemma {:induction false} ImageSplit(ws: seq<uint32>, buf: seq<byte>, at: nat)
    requires |ws| < MaxWords && (|ws| != 63 || Pad(at + 1) == 0)
    requires StoredAt(buf, at, Image(at, ws))
    ensures StoredAt(buf, at, ImageHead(at, |ws|))
    ensures StoredAt(buf, at + |ImageHead(at, |ws|)|, WordsBytes(ws))
  {
    StoredSplit(buf, at, ImageHead(at, |ws|), WordsBytes(ws));
  }

  /** The stored prefix and pad of `Image` decode to 4·len + pad. */
  lemma {:induction false} HeadParses(ws: seq<uint32>, buf: seq<byte>, at: nat)
    requires |ws| < MaxWords && (|ws| != 63 || Pad(at + 1) == 0)
    requires StoredAt(buf, at, ImageHead(at, |ws|))
    ensures UintParse(buf, at) == Parsed(Ok(4 * |ws| + Pad(at + UintSize(4 * |ws|))), at + UintSize(4 * |ws|))
  {
    var n := |ws|;
    var pad := Pad(at + UintSize(4 * n));
    var m := 4 * n + pad;
    PadKeepsWidth(n, pad);
    var u := UintBytes(m);
    assert ImageHead(at, n) == u + Zeros(pad);
    StoredSplit(buf, at, u, Zeros(pad));
    StoredSlice(buf, at, u);
    assert m < Pow256(8) by {
      assert Pow256(8) == 0x1_0000_0000_0000_0000;
    }
    UintRoundTrip(m, buf, at);
  }

  /** The words of `Image` are read back from behind its prefix and pad. */
  lemma {:induction false} ImageWords(ws: seq<uint32>, buf: seq<byte>, at: nat, offset: nat)
    requires |ws| < MaxWords && (|ws| != 63 || Pad(at + 1) == 0)
    requires StoredAt(buf, at + |ImageHead(at, |ws|)|, WordsBytes(ws))
    ensures WordsAt(buf, at + |ImageHead(at, |ws|)|, |ws|, offset)
      == Parsed(Ok(ws), at + |ImageHead(at, |ws|)| + 4 * |ws|)
  {
    WordsAtStored(buf, at + |ImageHead(at, |ws|)|, ws, offset);
  }

  /** Once the prefix of `Image` has been read as 4·len + pad, decode
      reads the words behind the pad. */
  lemma {:induction false} ImageAfterPrefix(ws: seq<uint32>, buf: seq<byte>, at: nat, offset: nat)
    requires |ws| < MaxWords && (|ws| != 63 || Pad(at + 1) == 0)
    requires WordsAt(buf, at + |ImageHead(at, |ws|)|, |ws|, offset)
      == Parsed(Ok(ws), at + |ImageHead(at, |ws|)| + 4 * |ws|)
    ensures AfterPrefix(buf, Parsed(Ok(4 * |ws| + Pad(at + UintSize(4 * |ws|))), at + UintSize(4 * |ws|)), offset)
      == Parsed(Ok(ws), at + |Image(at, ws)|)
  {
    PrefixFields(|ws|, Pad(at + UintSize(4 * |ws|)));
  }

  /** The input that shows the 63-word case: 63 zero words at the start of
      a buffer sized by `preencode` are stored behind the prefix byte
      0xfc | 3 = 0xff, which decode reads as an 8-byte uint tag, so it
      returns an empty array and stops at byte 9 of 256. */
  lemma {:induction false} SixtyThreeWords()
    ensures Size(0, 63) == 256
    ensures EncodeEffect(Zeros(256), 0, seq(63, _ => 0)) == Effect(Done, [0xff] + Zeros(255), 256)
    ensures Parse([0xff] + Zeros(255), 0, 0) == Parsed(Ok([]), 9)
  {
    SixtyThreeStored();
    SixtyThreeDecodes();
  }

  /** The stored bytes of the 63-word case, read back by `decode`. */
  lemma {:induction false} SixtyThreeDecodes()
    ensures Parse([0xff] + Zeros(255), 0, 0) == Parsed(Ok([]), 9)
  {
    var out: seq<byte> := [0xff] + Zeros(255);
    assert out[1..9] == LE(0, 8);
    LERoundTrip(0, 8);
    assert UintParse(out, 0) == Parsed(Ok(0), 9);
    assert Fetched(out, 9, 0) == [];
  }

  /** 63 zero words encoded at the start of 256 zero bytes. */
  lemma {:induction false} SixtyThreeStored()
    ensures EncodeEffect(Zeros(256), 0, seq(63, _ => 0)) == Effect(Done, [0xff] + Zeros(255), 256)
  {
    var ws: seq<uint32> := seq(63, _ => 0);
    assert Size(0, 63) == 256;
    EncodeCompletes(Zeros(256), 0, ws);
    var padded := Padded(Zeros(256), 0, 63);
    assert padded == [0xff] + Zeros(255);
    ZeroWords(63);
    assert Overlay(padded, 4, WordsBytes(ws)) == [0xff] + Zeros(255);
  }

  lemma {:induction false} ZeroWords(n: nat)
    ensures WordsBytes(seq(n, _ => 0)) == Zeros(4 * n)
  {
    if n > 0 {
      var ws: seq<uint32> := seq(n, _ => 0);
      assert ws[1..] == seq(n - 1, _ => 0);
      ZeroWords(n - 1);
      assert LE(0, 4) == [0, 0, 0, 0];
    }
  }

  /** `preencode`. */
  method Preencode(st: State, ws: seq<uint32>)
    requires |ws| < MaxWords
    modifies st`end
    ensures st.end == old(st.end) + Size(old(st.end), |ws|)
  {
    UintPreencode(st, 4 * |ws|);
    st.end := st.end + Pad(st.end);
    st.end := st.end + 4 * |ws|;
  }

  /** `encode`, as written (on a little-endian host). */
  method Encode(st: State, ws: seq<uint32>) returns (s: Status)
    requires st.buffer != null && |ws| < MaxWords
    modifies st`start, st.buffer
    ensures Effect(s, st.buffer[..], st.start) == EncodeEffect(old(st.buffer[..]), old(st.start), ws)
  {
    PrefixAndPad(st, |ws|);
    s := st.SetBytes(WordsBytes(ws));
    if s.Done? {
      st.start := st.start + 4 * |ws|;
    }
  }

  /** The part of `encode` before the words: the prefix, the OR, the pad. */
  method PrefixAndPad(st: State, n: nat)
    requires st.buffer != null && n < MaxWords
    modifies st`start, st.buffer
    ensures st.buffer[..] == Padded(old(st.buffer[..]), old(st.start), n)
    ensures st.start == DataStart(old(st.start), n)
  {
    var s0 := st.start;
    UintEncode(st, 4 * n);
    var pad := Pad(st.start);
    OrPad(st.buffer, s0, pad);
    PadZeros(st, pad);
  }

  /** The in-place OR of the pad into the prefix. */
  method OrPad(buffer: array<byte>, at: nat, pad: nat)
    requires pad < 4
    modifies buffer
    ensures buffer[..] == OrPrefix(old(buffer[..]), at, pad)
  {
    var idx := if at < buffer.Length && buffer[at] <= 0xfc then at else at + 1;
    if idx < buffer.Length {
      buffer[idx] := OrLow(buffer[idx], pad);
    }
  }

  /** `for (let i = 0; i < pad; i++) state.buffer[state.start++] = 0`. */
  method PadZeros(st: State, pad: nat)
    requires st.buffer != null
    modifies st`start, st.buffer
    ensures st.buffer[..] == Overlay(old(st.buffer[..]), old(st.start), Zeros(pad))
    ensures st.start == old(st.start) + pad
  {
    var i := 0;
    while i < pad
      invariant 0 <= i <= pad
      invariant st.start == old(st.start) + i
      invariant st.buffer[..] == Overlay(old(st.buffer[..]), old(st.start), Zeros(i))
    {
      OverlayAppend(old(st.buffer[..]), old(st.start), Zeros(i), [0]);
      assert Zeros(i) + [0] == Zeros(i + 1);
      st.PutByte(0);
      i := i + 1;
    }
  }

  /** `decode` (on a little-endian host); the words are returned as a
      value, not as a view sharing the buffer's memory. */
  method Decode(st: State) returns (r: Result<seq<uint32>>)
    requires st.buffer != null
    modifies st`start
    ensures Parsed(r, st.start) == Parse(st.buffer[..], old(st.start), st.byteOffset)
  {
    var l := UintDecode(st);
    if l.Err? {
      return Err(l.error);
    }
    st.start := st.start + l.value % 4;
    r := ReadWords(st, (l.value % 0x1_0000_0000) / 4);
  }

  /** The words part of `decode`. */
  method ReadWords(st: State, len: nat) returns (r: Result<seq<uint32>>)
    requires st.buffer != null
    modifies st`start
    ensures Parsed(r, st.start) == WordsAt(st.buffer[..], old(st.start), len, st.byteOffset)
  {
    var s := st.start;
    st.start := st.start + 4 * len;
    if (st.byteOffset + s) % 4 == 0 {
      if st.start > st.buffer.Length {
        return Err(RangeError);
      }
      return Ok(Words(st.buffer[s..st.start]));
    }
    var got := Subarray(st.buffer[..], s, st.start);
    r := Ok(Words(got + Zeros(4 * len - |got|)));
  }

  /** The prefix written in a given width w of 1, 3, 5 or 9 bytes, so a
      value may be written wider than `uint` would. */
  function WidthBytes(v: nat, w: nat): (r: seq<byte>)
    requires w == 1 || w == 3 || w == 5 || w == 9
    requires w == 1 ==> v <= 0xfc
    ensures |r| == w
  {
    if w == 1 then [v as byte]
    else if w == 3 then [0xfd] + LE(v, 2)
    else if w == 5 then [0xfe] + LE(v, 4)
    else [0xff] + LE(v, 8)
  }

  /** The corrected prefix and pad: the prefix width is chosen for
      4·len + 3, the largest value the pad can make of it, and the prefix is
      written with the pad already in it. */
  function CorrectedHead(at: nat, n: nat): (r: seq<byte>)
    requires n < MaxWords
    ensures (at + |r|) % 4 == 0
    ensures |r| == UintSize(4 * n + 3) + Pad(at + UintSize(4 * n + 3))
  {
    var w := UintSize(4 * n + 3);
    var pad := Pad(at + w);
    WidthBytes(4 * n + pad, w) + Zeros(pad)
  }

  /** The corrected layout. */
  function CorrectedImage(at: nat, ws: seq<uint32>): (r: seq<byte>)
    requires |ws| < MaxWords
    ensures |r| == CorrectedSize(at, |ws|)
  {
    CorrectedHead(at, |ws|) + WordsBytes(ws)
  }

  /** Bytes the corrected `preencode` adds when `state.end` is e. */
  function CorrectedSize(e: nat, n: nat): nat
  {
    UintSize(4 * n + 3) + Pad(e + UintSize(4 * n + 3)) + 4 * n
  }

  /** The corrected prefix decodes to 4·len + pad and ends where the pad
      begins. */
  lemma {:induction false} CorrectedHeadParses(ws: seq<uint32>, buf: seq<byte>, at: nat)
    requires |ws| < MaxWords
    requires StoredAt(buf, at, CorrectedHead(at, |ws|))
    ensures UintParse(buf, at)
      == Parsed(Ok(4 * |ws| + Pad(at + UintSize(4 * |ws| + 3))), at + UintSize(4 * |ws| + 3))
  {
    var n := |ws|;
    var w := UintSize(4 * n + 3);
    var l := 4 * n + Pad(at + w);
    var head := WidthBytes(l, w);
    StoredSplit(buf, at, head, Zeros(Pad(at + w)));
    StoredSlice(buf, at, head);
    assert Pow256(2) == 0x1_0000 && Pow256(4) == 0x1_0000_0000;
    assert Pow256(8) == 0x1_0000_0000_0000_0000;
    if w == 1 {
      assert buf[at] == head[0];
    } else {
      UintParseTagged(l, head[0], buf, at);
    }
  }

  /** len words stored at s are read back, whatever the alignment. */
  lemma {:induction false} WordsAtStored(buf: seq<byte>, s: nat, ws: seq<uint32>, offset: nat)
    requires StoredAt(buf, s, WordsBytes(ws))
    ensures WordsAt(buf, s, |ws|, offset) == Parsed(Ok(ws), s + 4 * |ws|)
  {
    var bs := WordsBytes(ws);
    StoredSlice(buf, s, bs);
    DivModUnique(|bs|, 4, |ws|, 0);
    WordsAtBytes(buf, s, bs, offset);
    WordsOfWordsBytes(ws);
  }

  /** Bytes stored at s are read back as words, whatever the alignment. */
  lemma {:induction false} WordsAtBytes(buf: seq<byte>, s: nat, bs: seq<byte>, offset: nat)
    requires |bs| % 4 == 0 && s + |bs| <= |buf| && buf[s..s + |bs|] == bs
    ensures WordsAt(buf, s, |bs| / 4, offset) == Parsed(Ok(Words(bs)), s + |bs|)
  {
    var len := |bs| / 4;
    assert 4 * len == |bs|;
    assert Fetched(buf, s, len) == bs;
  }

  /** The corrected layout decodes to the words for every length, at every
      offset of the buffer in its backing memory. */
  lemma {:induction false} CorrectedRoundTrip(ws: seq<uint32>, buf: seq<byte>, at: nat, offset: nat)
    requires |ws| < MaxWords
    requires StoredAt(buf, at, CorrectedImage(at, ws))
    ensures Parse(buf, at, offset) == Parsed(Ok(ws), at + CorrectedSize(at, |ws|))
  {
    CorrectedSplit(ws, buf, at);
    CorrectedHeadParses(ws, buf, at);
    CorrectedWords(ws, buf, at, offset);
    CorrectedAfterPrefix(ws, buf, at, offset);
  }

  lemma {:induction false} CorrectedSplit(ws: seq<uint32>, buf: seq<byte>, at: nat)
    requires |ws| < MaxWords
    requires StoredAt(buf, at, CorrectedImage(at, ws))
    ensures StoredAt(buf, at, CorrectedHead(at, |ws|))
    ensures StoredAt(buf, at + |CorrectedHead(at, |ws|)|, WordsBytes(ws))
  {
    StoredSplit(buf, at, CorrectedHead(at, |ws|), WordsBytes(ws));
  }

  /** The words of the corrected layout are read back from behind its
      prefix and pad. */
  lemma {:induction false} CorrectedWords(ws: seq<uint32>, buf: seq<byte>, at: nat, offset: nat)
    requires |ws| < MaxWords
    requires StoredAt(buf, at + |CorrectedHead(at, |ws|)|, WordsBytes(ws))
    ensures WordsAt(buf, at + |CorrectedHead(at, |ws|)|, |ws|, offset)
      == Parsed(Ok(ws), at + |CorrectedHead(at, |ws|)| + 4 * |ws|)
  {
    WordsAtStored(buf, at + |CorrectedHead(at, |ws|)|, ws, offset);
  }

  /** Once the corrected prefix has been read as 4·len + pad, decode
      reads the words behind the pad. */
  lemma {:induction false} CorrectedAfterPrefix(ws: seq<uint32>, buf: seq<byte>, at: nat, offset: nat)
    requires |ws| < MaxWords
    requires WordsAt(buf, at + |CorrectedHead(at, |ws|)|, |ws|, offset)
      == Parsed(Ok(ws), at + |CorrectedHead(at, |ws|)| + 4 * |ws|)
    ensures AfterPrefix(buf, Parsed(Ok(4 * |ws| + Pad(at + UintSize(4 * |ws| + 3))), at + UintSize(4 * |ws| + 3)), offset)
      == Parsed(Ok(ws), at + CorrectedSize(at, |ws|))
  {
    PrefixFields(|ws|, Pad(at + UintSize(4 * |ws| + 3)));
  }

  /** The prefix 4·len + pad yields len and pad again. */
  lemma {:induction false} PrefixFields(n: nat, pad: nat)
    requires n < MaxWords && pad < 4
    ensures ((4 * n + pad) % 0x1_0000_0000) / 4 == n
    ensures (4 * n + pad) % 4 == pad
  {
    DivModUnique(4 * n + pad, 4, n, pad);
    DivModUnique(4 * n + pad, 0x1_0000_0000, 0, 4 * n + pad);
  }

  /** `preencode` for the corrected layout. */
  method PreencodeCorrected(st: State, ws: seq<uint32>)
    requires |ws| < MaxWords
    modifies st`end
    ensures st.end == old(st.end) + CorrectedSize(old(st.end), |ws|)
  {
    UintPreencode(st, 4 * |ws| + 3);
    st.end := st.end + Pad(st.end);
    st.end := st.end + 4 * |ws|;
  }

  /** `encode` for the corrected layout: stores `CorrectedImage` whenever
      it fits, advancing the cursor by what `PreencodeCorrected` added. */
  method EncodeCorrected(st: State, ws: seq<uint32>) returns (s: Status)
    requires st.buffer != null && |ws| < MaxWords
    modifies st`start, st.buffer
    ensures s.Done? <==> old(st.start) + CorrectedSize(old(st.start), |ws|) <= st.buffer.Length
    ensures s.Done? ==> st.buffer[..] == Overlay(old(st.buffer[..]), old(st.start), CorrectedImage(old(st.start), ws))
    ensures s.Done? ==> st.start == old(st.start) + CorrectedSize(old(st.start), |ws|)
  {
    var s0 := st.start;
    var head := CorrectedHead(s0, |ws|);
    st.PutBytes(head);
    ghost var mid := st.buffer[..];
    s := st.SetBytes(WordsBytes(ws));
    if s.Done? {
      OverlayJoin(old(st.buffer[..]), s0, head, WordsBytes(ws), mid, st.start);
      st.start := st.start + 4 * |ws|;
    }
  }
}
