/** The `string` codec of index.js (129-147): a uint byte-length prefix,
    then the UTF-8 bytes. The transcoding it borrows from Node's Buffer
    (`Buffer.byteLength`, `buffer.write`, `buffer.toString('utf-8')`) is
    written out here: the encoder of the Unicode standard, section 3.9,
    and the decoder of the WHATWG Encoding standard, which replaces each
    maximal ill-formed subpart with U+FFFD. */
module CompactString {
  import opened Wire
  import opened Cursor
  import opened CompactUint

  // UTF-8

  /** U+FFFD REPLACEMENT CHARACTER. */
  const Replacement: char := '\U{FFFD}'

  /** The UTF-8 bytes of one Unicode scalar value. */
  function CharBytes(c: char): (r: seq<byte>)
    ensures 1 <= |r| <= 4
    ensures |r| == 1 <==> (c as int) < 0x80
    ensures |r| == 2 <==> 0x80 <= (c as int) < 0x800
    ensures |r| == 3 <==> 0x800 <= (c as int) < 0x10000
  {
    var v := c as int;
    if v < 0x80 then [v as byte]
    else if v < 0x800 then [(0xc0 + v / 64) as byte, (0x80 + v % 64) as byte]
    else if v < 0x10000 then
      [(0xe0 + v / 4096) as byte, (0x80 + v / 64 % 64) as byte, (0x80 + v % 64) as byte]
    else
      [(0xf0 + v / 0x40000) as byte, (0x80 + v / 4096 % 64) as byte,
       (0x80 + v / 64 % 64) as byte, (0x80 + v % 64) as byte]
  }

  /** The UTF-8 encoding of a string; its length is `Buffer.byteLength(s)`. */
  function Utf8(s: string): (r: seq<byte>)
    ensures |s| <= |r| <= 4 * |s|
  {
    if s == [] then [] else CharBytes(s[0]) + Utf8(s[1..])
  }

  /** How many bytes a sequence that starts with `lead` has, or 0 when
      `lead` cannot start one (a continuation byte, 0xc0, 0xc1, 0xf5..0xff). */
  function SeqLength(lead: byte): nat
  {
    if lead < 0x80 then 1
    else if 0xc2 <= lead <= 0xdf then 2
    else if 0xe0 <= lead <= 0xef then 3
    else if 0xf0 <= lead <= 0xf4 then 4
    else 0
  }

  /** The range the byte after `lead` must fall in; it rules out overlong
      forms, surrogates and values above U+10FFFF. */
  function SecondLow(lead: byte): byte
  {
    if lead == 0xe0 then 0xa0 else if lead == 0xf0 then 0x90 else 0x80
  }

  function SecondHigh(lead: byte): byte
  {
    if lead == 0xed then 0x9f else if lead == 0xf4 then 0x8f else 0xbf
  }

  predicate Continuation(b: byte)
  {
    0x80 <= b <= 0xbf
  }

  /** How many bytes of a k-byte sequence at the head of bs the decoder
      accepts before it meets a byte out of range or the end of the input. */
  function Accepted(bs: seq<byte>, k: nat): (m: nat)
    requires bs != [] && 2 <= k <= 4
    ensures 1 <= m <= k && m <= |bs|
  {
    if |bs| < 2 || !(SecondLow(bs[0]) <= bs[1] <= SecondHigh(bs[0])) then 1
    else if k == 2 then 2
    else if |bs| < 3 || !Continuation(bs[2]) then 2
    else if k == 3 then 3
    else if |bs| < 4 || !Continuation(bs[3]) then 3
    else 4
  }

  /** One step of the decoder: a character and the bytes it used. */
  datatype Decoded = Decoded(ch: char, used: nat)

  /** The scalar value a well-formed multi-byte sequence spells. */
  function Scalar(bs: seq<byte>): (c: char)
    requires |bs| >= 2 && SeqLength(bs[0]) == |bs| && Accepted(bs, |bs|) == |bs|
  {
    if |bs| == 2 then
      ((bs[0] as int - 0xc0) * 64 + (bs[1] as int - 0x80)) as char
    else if |bs| == 3 then
      ((bs[0] as int - 0xe0) * 4096 + (bs[1] as int - 0x80) * 64 + (bs[2] as int - 0x80)) as char
    else
      ((bs[0] as int - 0xf0) * 0x40000 + (bs[1] as int - 0x80) * 4096
       + (bs[2] as int - 0x80) * 64 + (bs[3] as int - 0x80)) as char
  }

  /** The decoder's step at the head of bs: a well-formed sequence gives
      its character; an ill-formed one gives U+FFFD for the bytes it
      accepted, at least one. */
  function DecodeChar(bs: seq<byte>): (d: Decoded)
    requires bs != []
    ensures 1 <= d.used <= |bs|
  {
    var k := SeqLength(bs[0]);
    if k == 1 then Decoded(bs[0] as int as char, 1)
    else if k == 0 then Decoded(Replacement, 1)
    else
      var m := Accepted(bs, k);
      if m < k then Decoded(Replacement, m) else Decoded(Scalar(bs[..k]), k)
  }

  /** `buffer.toString('utf-8', ...)` of the bytes bs. */
  function Text(bs: seq<byte>): string
    decreases |bs|
  {
    if bs == [] then []
    else
      var d := DecodeChar(bs);
      [d.ch] + Text(bs[d.used..])
  }

  /** The decoder reads back the character the encoder wrote, whatever follows. */
  lemma {:induction false} DecodeCharBytes(c: char, rest: seq<byte>)
    ensures DecodeChar(CharBytes(c) + rest) == Decoded(c, |CharBytes(c)|)
  {
    var v := c as int;
    if v < 0x80 {
    } else if v < 0x800 {
      DecodeTwo(c, rest);
    } else if v < 0x10000 {
      DecodeThree(c, rest);
    } else {
      DecodeFour(c, rest);
    }
  }

  lemma {:induction false} DecodeTwo(c: char, rest: seq<byte>)
    requires 0x80 <= c as int < 0x800
    ensures DecodeChar(CharBytes(c) + rest) == Decoded(c, 2)
  {
    var v := c as int;
    var bs := CharBytes(c) + rest;
    assert bs[..2] == CharBytes(c);
    assert (v / 64) * 64 + v % 64 == v;
  }

  lemma {:induction false} DecodeThree(c: char, rest: seq<byte>)
    requires 0x800 <= c as int < 0x10000
    ensures DecodeChar(CharBytes(c) + rest) == Decoded(c, 3)
  {
    var v := c as int;
    var bs := CharBytes(c) + rest;
    assert bs[..3] == CharBytes(c);
    assert (v / 4096) * 4096 + (v / 64 % 64) * 64 + v % 64 == v;
  }

  lemma {:induction false} DecodeFour(c: char, rest: seq<byte>)
    requires 0x10000 <= c as int
    ensures DecodeChar(CharBytes(c) + rest) == Decoded(c, 4)
  {
    var v := c as int;
    var bs := CharBytes(c) + rest;
    assert bs[..4] == CharBytes(c);
    assert (v / 0x40000) * 0x40000 + (v / 4096 % 64) * 4096 + (v / 64 % 64) * 64 + v % 64 == v;
  }

  /** Decoding the UTF-8 encoding of a string gives the string back. */
  lemma {:induction false} TextOfUtf8(s: string)
    ensures Text(Utf8(s)) == s
  {
    if s != [] {
      var bs := Utf8(s);
      var n := |CharBytes(s[0])|;
      DecodeCharBytes(s[0], Utf8(s[1..]));
      assert bs[n..] == Utf8(s[1..]);
      TextOfUtf8(s[1..]);
      assert s == [s[0]] + s[1..];
    }
  }

  /** The encoding of a concatenation is the concatenation of the encodings. */
  lemma {:induction false} Utf8Append(a: string, b: string)
    ensures Utf8(a + b) == Utf8(a) + Utf8(b)
    decreases |a|
  {
    if a != [] {
      assert (a + b)[0] == a[0] && (a + b)[1..] == a[1..] + b;
      Utf8Append(a[1..], b);
    } else {
      assert a + b == b;
    }
  }

  /** An ASCII string takes one byte per character. */
  lemma {:induction false} Utf8Ascii(s: string)
    requires forall i :: 0 <= i < |s| ==> s[i] as int < 0x80
    ensures |Utf8(s)| == |s|
    decreases |s|
  {
    if s != [] {
      Utf8Ascii(s[1..]);
    }
  }

  /** Worked encodings: a 4-byte and a 2-byte character. */
  lemma {:induction false} Utf8Examples()
    ensures Utf8("\U{1F33E}") == [0xf0, 0x9f, 0x8c, 0xbe]
    ensures |Utf8("h" + "\U{F8}" + "sten er fin")| == 14
  {
    assert CharBytes('\U{1F33E}') == [0xf0, 0x9f, 0x8c, 0xbe];
    assert Utf8("\U{1F33E}") == CharBytes('\U{1F33E}') + Utf8([]);
    var h, o, rest := "h", "\U{F8}", "sten er fin";
    assert |Utf8(o)| == 2 by {
      assert Utf8(o) == CharBytes('\U{F8}') + Utf8([]);
    }
    Utf8Ascii(h);
    Utf8Ascii(rest);
    Utf8Append(h, o);
    Utf8Append(h + o, rest);
  }

  /** The bytes `buffer.write(s, offset)` stores into `room` free bytes:
      the longest run of whole characters that fits. */
  function Fitting(s: string, room: nat): (r: seq<byte>)
    ensures |r| <= room && r <= Utf8(s)
    ensures |Utf8(s)| <= room ==> r == Utf8(s)
  {
    if s == [] || |CharBytes(s[0])| > room then []
    else CharBytes(s[0]) + Fitting(s[1..], room - |CharBytes(s[0])|)
  }

  /** What `buffer.write` leaves out starts with a character that would
      not have fitted: the bytes written are the first i characters, and
      character i does not fit in what is left. */
  lemma {:induction false} FittingMaximal(s: string, room: nat)
    requires Fitting(s, room) != Utf8(s)
    ensures exists i :: 0 <= i < |s| && Fitting(s, room) == Utf8(s[..i]) && |Fitting(s, room)| + |CharBytes(s[i])| > room
    decreases |s|
  {
    if |CharBytes(s[0])| > room {
      assert Fitting(s, room) == Utf8(s[..0]);
    } else {
      var t, left := s[1..], room - |CharBytes(s[0])|;
      FittingMaximal(t, left);
      var i :| 0 <= i < |t| && Fitting(t, left) == Utf8(t[..i]) && |Fitting(t, left)| + |CharBytes(t[i])| > left;
      assert s[..i + 1][1..] == t[..i];
      assert Fitting(s, room) == Utf8(s[..i + 1]);
    }
  }

  // string: prefix and body

  /** Bytes `string.preencode` adds. */
  function StrSize(s: string): nat
  {
    UintSize(|Utf8(s)|) + |Utf8(s)|
  }

  /** Bytes `string.encode` stores when they fit. */
  function StrBytes(s: string): (r: seq<byte>)
    ensures |r| == StrSize(s)
  {
    UintBytes(|Utf8(s)|) + Utf8(s)
  }

  /** What `string.decode` returns with `state.start` at `at`: the cursor
      moves past the declared bytes, those of them the buffer holds are
      decoded, and the decode throws only when the decoded text does not
      re-encode to the declared length. */
  function StrParse(buf: seq<byte>, at: nat): Parsed<string>
  {
    StrAfterPrefix(buf, UintParse(buf, at))
  }

  /** The part of `string.decode` after the prefix p has been read. */
  function StrAfterPrefix(buf: seq<byte>, p: Parsed<nat>): Parsed<string>
  {
    if p.result.Err? then Parsed(Err(p.result.error), p.next)
    else
      var stop := p.next + p.result.value;
      var s := Text(Subarray(buf, p.next, stop));
      if |Utf8(s)| != p.result.value then Parsed(Err(OutOfBounds), stop) else Parsed(Ok(s), stop)
  }

  /** The length prefix of a stored string reads back. */
  lemma {:induction false} StrPrefixParses(s: string, buf: seq<byte>, at: nat)
    requires |Utf8(s)| <= MaxSafe
    requires at + StrSize(s) <= |buf| && buf[at..at + StrSize(s)] == StrBytes(s)
    ensures UintParse(buf, at) == Parsed(Ok(|Utf8(s)|), at + UintSize(|Utf8(s)|))
  {
    var w, e := UintSize(|Utf8(s)|), Utf8(s);
    var u := UintBytes(|e|);
    assert StrBytes(s) == u + e;
    assert buf[at..at + w] == buf[at..at + StrSize(s)][..w];
    assert (u + e)[..w] == u;
    assert Pow256(8) == 0x1_0000_0000_0000_0000;
    UintRoundTrip(|e|, buf, at);
  }

  /** The bytes after the prefix of a stored string are its encoding. */
  lemma {:induction false} StrBodyStored(s: string, buf: seq<byte>, at: nat)
    requires at + StrSize(s) <= |buf| && buf[at..at + StrSize(s)] == StrBytes(s)
    ensures Subarray(buf, at + UintSize(|Utf8(s)|), at + UintSize(|Utf8(s)|) + |Utf8(s)|) == Utf8(s)
  {
    var w, e := UintSize(|Utf8(s)|), Utf8(s);
    assert buf[at + w..at + w + |e|] == (UintBytes(|e|) + e)[w..] == e;
  }

  /** The body of a stored string decodes to the string. */
  lemma {:induction false} StrBodyDecodes(s: string, buf: seq<byte>, at: nat)
    requires Subarray(buf, at + UintSize(|Utf8(s)|), at + UintSize(|Utf8(s)|) + |Utf8(s)|) == Utf8(s)
    ensures StrAfterPrefix(buf, Parsed(Ok(|Utf8(s)|), at + UintSize(|Utf8(s)|))) == Parsed(Ok(s), at + StrSize(s))
  {
    TextOfUtf8(s);
  }

  /** `string.decode` after `string.encode(s)` returns s, with the cursor
      just past the bytes preencode counted. */
  lemma {:induction false} StrRoundTrip(s: string, buf: seq<byte>, at: nat)
    requires |Utf8(s)| <= MaxSafe
    requires at + StrSize(s) <= |buf| && buf[at..at + StrSize(s)] == StrBytes(s)
    ensures StrParse(buf, at) == Parsed(Ok(s), at + StrSize(s))
  {
    StrPrefixParses(s, buf, at);
    StrBodyStored(s, buf, at);
    StrBodyDecodes(s, buf, at);
  }

  /** The sizes and bytes of the strings in test.js:297-317. */
  lemma {:induction false} StrExamples()
    ensures StrBytes("\U{1F33E}") == [4, 0xf0, 0x9f, 0x8c, 0xbe]
    ensures StrSize("\U{1F33E}") + StrSize("h" + "\U{F8}" + "sten er fin") == 20
  {
    Utf8Examples();
  }

  /** The re-check lets a truncated string through: the first two bytes of
      the encoding of "€" decode to one U+FFFD, whose three UTF-8 bytes
      match the declared length 3, so `string.decode` returns "�"
      and leaves the cursor two bytes past the end of the buffer. */
  lemma {:induction false} StrTruncatedAccepted()
    ensures StrBytes("\U{20AC}") == [3, 0xe2, 0x82, 0xac]
    ensures StrParse([3, 0xe2], 0) == Parsed(Ok([Replacement]), 4)
  {
    assert CharBytes('\U{20AC}') == [0xe2, 0x82, 0xac];
    assert Utf8("\U{20AC}") == CharBytes('\U{20AC}') + Utf8([]);
    var buf: seq<byte> := [3, 0xe2];
    assert UintParse(buf, 0) == Parsed(Ok(3), 1);
    assert Subarray(buf, 1, 4) == [0xe2];
    assert DecodeChar([0xe2]) == Decoded(Replacement, 1);
    assert Text([0xe2]) == [Replacement] + Text([]) == [Replacement];
    assert CharBytes(Replacement) == [0xef, 0xbf, 0xbd];
    assert Utf8([Replacement]) == CharBytes(Replacement) + Utf8([]);
    assert |Utf8([Replacement])| == 3;
    assert StrAfterPrefix(buf, Parsed(Ok(3), 1)) == Parsed(Ok([Replacement]), 4);
  }

  /** `string.decode` with the bounds check it evidently intends: declared
      bytes beyond the end of the buffer are an error before any decoding. */
  function StrParseChecked(buf: seq<byte>, at: nat): (r: Parsed<string>)
    ensures r.result.Ok? ==> r.next <= |buf|
    ensures r.result.Ok? ==> r.result == StrParse(buf, at).result
  {
    var p := UintParse(buf, at);
    if p.result.Ok? && p.next + p.result.value > |buf| then Parsed(Err(OutOfBounds), p.next + p.result.value)
    else StrParse(buf, at)
  }

  /** The checked decode still reads back every encoded string. */
  lemma {:induction false} StrCheckedRoundTrip(s: string, buf: seq<byte>, at: nat)
    requires |Utf8(s)| <= MaxSafe
    requires at + StrSize(s) <= |buf| && buf[at..at + StrSize(s)] == StrBytes(s)
    ensures StrParseChecked(buf, at) == Parsed(Ok(s), at + StrSize(s))
  {
    StrPrefixParses(s, buf, at);
    StrRoundTrip(s, buf, at);
  }

  /** The checked decode rejects every encoding cut short. */
  lemma {:induction false} StrCheckedTruncated(s: string, k: nat)
    requires |Utf8(s)| <= MaxSafe
    requires k < StrSize(s)
    ensures StrParseChecked(StrBytes(s)[..k], 0).result.Err?
  {
    var bs := StrBytes(s)[..k];
    var w := UintSize(|Utf8(s)|);
    if k < w {
      assert bs == UintBytes(|Utf8(s)|)[..k];
      UintTruncated(|Utf8(s)|, k);
    } else {
      assert bs[..w] == UintBytes(|Utf8(s)|);
      assert Pow256(8) == 0x1_0000_0000_0000_0000;
      UintRoundTrip(|Utf8(s)|, bs, 0);
    }
  }

  /** `string.preencode`. */
  method StrPreencode(st: State, s: string)
    modifies st`end
    ensures st.end == old(st.end) + StrSize(s)
  {
    var len := |Utf8(s)|;
    UintPreencode(st, len);
    st.end := st.end + len;
  }

  /** `buffer.write(s, state.start)` on a Node Buffer: a RangeError when
      the offset is past the end, otherwise the whole characters that fit
      are stored; the cursor does not move. */
  method WriteText(st: State, s: string) returns (r: Status)
    requires st.buffer != null
    modifies st.buffer
    ensures r == if st.start <= st.buffer.Length then Done else Thrown(RangeError)
    ensures st.buffer[..] == if r.Done? then Overlay(old(st.buffer[..]), st.start, Fitting(s, st.buffer.Length - st.start))
                             else old(st.buffer[..])
  {
    if st.start > st.buffer.Length {
      return Thrown(RangeError);
    }
    r := st.SetBytes(Fitting(s, st.buffer.Length - st.start));
  }

  /** `string.encode`: the prefix, then `buffer.write`, then the cursor
      moves by the full byte length even when not all of it was written. */
  method StrEncode(st: State, s: string) returns (r: Status)
    requires st.buffer != null
    modifies st`start, st.buffer
    ensures r == if old(st.start) + UintSize(|Utf8(s)|) <= st.buffer.Length then Done else Thrown(RangeError)
    ensures r.Done? ==> st.buffer[..] == Overlay(Overlay(old(st.buffer[..]), old(st.start), UintBytes(|Utf8(s)|)),
                                                 old(st.start) + UintSize(|Utf8(s)|),
                                                 Fitting(s, st.buffer.Length - old(st.start) - UintSize(|Utf8(s)|)))
    ensures !r.Done? ==> st.buffer[..] == Overlay(old(st.buffer[..]), old(st.start), UintBytes(|Utf8(s)|))
    ensures st.start == old(st.start) + if r.Done? then StrSize(s) else UintSize(|Utf8(s)|)
    ensures old(st.start) + StrSize(s) <= st.buffer.Length ==>
              r.Done? && st.buffer[..] == Overlay(old(st.buffer[..]), old(st.start), StrBytes(s))
  {
    var len := |Utf8(s)|;
    UintEncode(st, len);
    r := WriteText(st, s);
    if r.Done? {
      OverlayAppend(old(st.buffer[..]), old(st.start), UintBytes(len), Utf8(s));
      st.start := st.start + len;
    }
  }

  /** `string.decode`. */
  method StrDecode(st: State) returns (r: Result<string>)
    requires st.buffer != null
    modifies st`start
    ensures Parsed(r, st.start) == StrParse(st.buffer[..], old(st.start))
  {
    var len := UintDecode(st);
    if len.Err? {
      return Err(len.error);
    }
    var from := st.start;
    st.start := st.start + len.value;
    var s := Text(Subarray(st.buffer[..], from, st.start));
    if |Utf8(s)| != len.value {
      return Err(OutOfBounds);
    }
    r := Ok(s);
  }

  /** `string.decode` with the bounds check. */
  method StrDecodeChecked(st: State) returns (r: Result<string>)
    requires st.buffer != null
    modifies st`start
    ensures Parsed(r, st.start) == StrParseChecked(st.buffer[..], old(st.start))
  {
    var len := UintDecode(st);
    if len.Err? {
      return Err(len.error);
    }
    var from := st.start;
    st.start := st.start + len.value;
    if st.start > st.buffer.Length {
      return Err(OutOfBounds);
    }
    var s := Text(st.buffer[from..st.start]);
    if |Utf8(s)| != len.value {
      return Err(OutOfBounds);
    }
    r := Ok(s);
  }
}
