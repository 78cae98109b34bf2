/** The compact unsigned integer `uint` and the ZigZag signed integer
    `int` of index.js:4-43 with their helpers at index.js:294-335. */
module CompactUint {
  import opened Wire
  import opened Cursor

  /** Number.MAX_SAFE_INTEGER, the largest integer a JS number holds exactly. */
  const MaxSafe: nat := 0x1f_ffff_ffff_ffff

  /** Bytes `uint.preencode` adds to `end` for n. */
  function UintSize(n: nat): nat
  {
    if n <= 0xfc then 1 else if n <= 0xffff then 3 else if n <= 0xffff_ffff then 5 else 9
  }

  /** Bytes `uint.encode` stores for n: n itself, or a tag and n
      little-endian in 2, 4 or 8 bytes (the high half of the 8-byte form is
      `Math.floor(n / 4294967296)`, so n is taken modulo 2^64). Its length is
      what `uint.preencode` counts. */
  function UintBytes(n: nat): (r: seq<byte>)
    ensures |r| == UintSize(n)
    ensures n <= 0xfc <==> |r| == 1
    ensures |r| == 1 ==> r[0] as nat == n
    ensures |r| > 1 ==> r[0] == (if |r| == 3 then 0xfd else if |r| == 5 then 0xfe else 0xff)
  {
    if n <= 0xfc then [n as byte]
    else if n <= 0xffff then [0xfd] + LE(n, 2)
    else if n <= 0xffff_ffff then [0xfe] + LE(n, 4)
    else [0xff] + LE(n, 8)
  }

  /** Number of little-endian bytes that follow a tag byte. */
  function TagWidth(tag: byte): nat
  {
    if tag == 0xfd then 2 else if tag == 0xfe then 4 else 8
  }

  /** What `uint.decode` returns when `state.start` is `at`, and where it
      leaves the cursor. Bounds are checked against the buffer's length,
      not against `state.end`. */
  function UintParse(buf: seq<byte>, at: nat): Parsed<nat>
  {
    if at >= |buf| then Parsed(Err(OutOfBounds), at)
    else if buf[at] <= 0xfc then Parsed(Ok(buf[at] as nat), at + 1)
    else
      var w := TagWidth(buf[at]);
      if at + 1 + w > |buf| then Parsed(Err(OutOfBounds), at + 1)
      else Parsed(Ok(FromLE(buf[at + 1..at + 1 + w])), at + 1 + w)
  }

  /** A tag byte followed by a w-byte little-endian l decodes to l, whether
      or not w is the smallest width for l. */
  lemma {:induction false} UintParseTagged(l: nat, tag: byte, buf: seq<byte>, at: nat)
    requires tag > 0xfc && l < Pow256(TagWidth(tag))
    requires at + 1 + TagWidth(tag) <= |buf|
    requires buf[at..at + 1 + TagWidth(tag)] == [tag] + LE(l, TagWidth(tag))
    ensures UintParse(buf, at) == Parsed(Ok(l), at + 1 + TagWidth(tag))
  {
    var w := TagWidth(tag);
    assert buf[at] == buf[at..at + 1 + w][0] == tag;
    assert buf[at + 1..at + 1 + w] == buf[at..at + 1 + w][1..] == LE(l, w);
    LERoundTrip(l, w);
  }

  /** `uint.decode` after `uint.encode(n)` returns n and consumes exactly
      the bytes `uint.preencode` counted, for every n below 2^64 (so for
      every safe integer). */
  lemma {:induction false} UintRoundTrip(n: nat, buf: seq<byte>, at: nat)
    requires n < Pow256(8)
    requires at + UintSize(n) <= |buf| && buf[at..at + UintSize(n)] == UintBytes(n)
    ensures UintParse(buf, at) == Parsed(Ok(n), at + UintSize(n))
  {
    var bs := UintBytes(n);
    assert buf[at] == bs[0];
    if n > 0xfc {
      var w := TagWidth(bs[0]);
      assert Pow256(2) == 0x1_0000 && Pow256(4) == 0x1_0000_0000;
      UintParseTagged(n, bs[0], buf, at);
    }
  }

  /** Every proper prefix of an encoding is rejected as out of bounds. */
  lemma {:induction false} UintTruncated(n: nat, k: nat)
    requires k < UintSize(n)
    ensures UintParse(UintBytes(n)[..k], 0).result == Err(OutOfBounds)
  {
  }

  /** The wire layouts the tests spell out: 42, 4200 and MAX_SAFE_INTEGER. */
  lemma {:induction false} UintExamples()
    ensures UintBytes(42) == [42]
    ensures UintBytes(4200) == [0xfd, 104, 16]
    ensures UintBytes(MaxSafe) == [0xff, 255, 255, 255, 255, 255, 255, 31, 0]
  {
    assert LE(4200, 2) == [104, 16];
    assert LE(MaxSafe, 8) == [255, 255, 255, 255, 255, 255, 31, 0];
  }

  /** `uint.preencode`. */
  method UintPreencode(st: State, n: nat)
    modifies st`end
    ensures st.end == old(st.end) + UintSize(n)
  {
    st.end := st.end + (if n <= 0xfc then 1 else if n <= 0xffff then 3 else if n <= 0xffff_ffff then 5 else 9);
  }

  /** `encode16`. */
  method Encode16(st: State, n: nat)
    requires st.buffer != null && 0xfc < n <= 0xffff
    modifies st`start, st.buffer
    ensures st.buffer[..] == Overlay(old(st.buffer[..]), old(st.start), UintBytes(n))
    ensures st.start == old(st.start) + 3
  {
    assert LE(n, 2) == [(n % 256) as byte, (n / 256) as byte];
    st.PutBytes([0xfd, (n % 256) as byte, (n / 256) as byte]);
  }

  /** `encode32`: the low byte of n and of each `n >>> 8` step. */
  method Encode32(st: State, n: nat)
    requires st.buffer != null && 0xffff < n <= 0xffff_ffff
    modifies st`start, st.buffer
    ensures st.buffer[..] == Overlay(old(st.buffer[..]), old(st.start), UintBytes(n))
    ensures st.start == old(st.start) + 5
  {
    st.PutBytes([0xfe] + LE(n, 4));
  }

  /** `encode64`: the low 32 bits as in `encode32`, then the same for
      `r = Math.floor(n / 4294967296)`. */
  method Encode64(st: State, n: nat)
    requires st.buffer != null && 0xffff_ffff < n
    modifies st`start, st.buffer
    ensures st.buffer[..] == Overlay(old(st.buffer[..]), old(st.start), UintBytes(n))
    ensures st.start == old(st.start) + 9
  {
    var r := n / 0x1_0000_0000;
    var low, high := LE(n % 0x1_0000_0000, 4), LE(r, 4);
    assert low + high == LE(n, 8) by {
      SplitLE(n);
    }
    st.PutBytes([0xff] + (low + high));
  }

  /** `uint.encode`. */
  method UintEncode(st: State, n: nat)
    requires st.buffer != null
    modifies st`start, st.buffer
    ensures st.buffer[..] == Overlay(old(st.buffer[..]), old(st.start), UintBytes(n))
    ensures st.start == old(st.start) + UintSize(n)
  {
    if n <= 0xfc {
      st.PutByte(n as byte);
    } else if n <= 0xffff {
      Encode16(st, n);
    } else if n <= 0xffff_ffff {
      Encode32(st, n);
    } else {
      Encode64(st, n);
    }
  }

  /** `decode16`, `decode32` and `decode64`, entered after the tag: a
      bounds check against the buffer's length, then w little-endian bytes. */
  method DecodeWide(st: State, w: nat) returns (r: Result<nat>)
    requires st.buffer != null
    modifies st`start
    ensures r == (if old(st.start) + w > st.buffer.Length then Err(OutOfBounds)
                  else Ok(FromLE(st.buffer[old(st.start)..old(st.start) + w])))
    ensures st.start == if r.Ok? then old(st.start) + w else old(st.start)
  {
    if st.start + w > st.buffer.Length {
      return Err(OutOfBounds);
    }
    r := Ok(FromLE(st.buffer[st.start..st.start + w]));
    st.start := st.start + w;
  }

  /** `uint.decode`. */
  method UintDecode(st: State) returns (r: Result<nat>)
    requires st.buffer != null
    modifies st`start
    ensures Parsed(r, st.start) == UintParse(st.buffer[..], old(st.start))
  {
    if st.start >= st.buffer.Length {
      return Err(OutOfBounds);
    }
    var a := st.buffer[st.start];
    st.start := st.start + 1;
    if a <= 0xfc {
      return Ok(a as nat);
    }
    if a == 0xfd {
      r := DecodeWide(st, 2);
    } else if a == 0xfe {
      r := DecodeWide(st, 4);
    } else {
      r := DecodeWide(st, 8);
    }
  }

  // ZigZag: 0, -1, 1, -2, 2, ... onto 0, 1, 2, 3, 4, ...

  /** 2^53: above it, JS numbers are the even integers only (up to 2^54). */
  const TwoTo53: nat := 0x20_0000_0000_0000

  /** The smallest int whose ZigZag code JS computes exactly: −2^52. */
  const MinExactInt: int := -0x10_0000_0000_0000

  /** The JS number nearest to x, ties to even, for x below 2^54: x itself
      up to 2^53; above, an odd x lies halfway between two even numbers
      and goes to the one that is a multiple of 4. */
  function ToDouble(x: nat): (r: nat)
    requires x < 2 * TwoTo53
    ensures x <= TwoTo53 ==> r == x
    ensures r <= TwoTo53 || r % 2 == 0
    ensures x - 1 <= r <= x + 1
  {
    if x <= TwoTo53 || x % 2 == 0 then x
    else if (x + 1) % 4 == 0 then x + 1
    else x - 1
  }

  /** `zigzagEncode` on a safe integer: `2 * n` is exact, `2 * -n` is too,
      but `(2 * -n) - 1` is rounded to a JS number. */
  function ZigZagEncode(n: int): nat
    requires -(MaxSafe as int) <= n <= MaxSafe
  {
    if n < 0 then ToDouble(2 * -n - 1) else if n == 0 then 0 else 2 * n
  }

  /** `zigzagDecode`: `n & 1` is the parity of n. */
  function ZigZagDecode(n: nat): int
  {
    if n == 0 then 0 else if n % 2 == 0 then n / 2 else -((n + 1) / 2)
  }

  /** ZigZagDecode undoes ZigZagEncode from −2^52 up to the largest safe
      integer, where the arithmetic is exact. */
  lemma {:induction false} ZigZagRoundTrip(n: int)
    requires MinExactInt <= n <= MaxSafe
    ensures ZigZagDecode(ZigZagEncode(n)) == n
  {
  }

  /** Below −2^52 the code is rounded to an even number, so the sign is
      lost: n decodes as −n or −n − 1. */
  lemma {:induction false} ZigZagSignLost(n: int)
    requires -(MaxSafe as int) <= n < MinExactInt
    ensures ZigZagEncode(n) % 2 == 0
    ensures ZigZagDecode(ZigZagEncode(n)) == -n || ZigZagDecode(ZigZagEncode(n)) == -n - 1
  {
  }

  /** −(2^52 + 1) is stored as 2^53, which decodes to +2^52. */
  lemma {:induction false} ZigZagSignExample()
    ensures ZigZagEncode(MinExactInt - 1) == TwoTo53
    ensures ZigZagDecode(TwoTo53) == -MinExactInt
  {
  }

  /** ZigZagEncode undoes ZigZagDecode on every code up to 2^53, so the
      two are a bijection between [−2^52, 2^52] and [0, 2^53]. */
  lemma {:induction false} ZigZagOnto(m: nat)
    requires m <= TwoTo53
    ensures -(MaxSafe as int) <= ZigZagDecode(m) <= MaxSafe
    ensures ZigZagEncode(ZigZagDecode(m)) == m
  {
  }

  /** The folding keeps small magnitudes small where it is exact: a
      smaller magnitude gets a smaller code, and the code of n is below
      2|n| + 1. */
  lemma {:induction false} ZigZagMagnitude(a: int, b: int)
    requires MinExactInt <= a <= MaxSafe && MinExactInt <= b <= MaxSafe
    requires (if a < 0 then -a else a) < (if b < 0 then -b else b)
    ensures ZigZagEncode(a) < ZigZagEncode(b)
    ensures ZigZagEncode(a) <= 2 * (if a < 0 then -a else a)
  {
  }

  /** −4200 folds to 8399, stored as fd cf 20. */
  lemma {:induction false} IntExample()
    ensures ZigZagEncode(-4200) == 8399
    ensures UintBytes(ZigZagEncode(-4200)) == [0xfd, 0xcf, 0x20]
  {
    assert LE(8399, 2) == [0xcf, 0x20];
  }

  /** What `int.decode` returns when `state.start` is `at`. */
  function IntParse(buf: seq<byte>, at: nat): Parsed<int>
  {
    var p := UintParse(buf, at);
    Parsed(if p.result.Ok? then Ok(ZigZagDecode(p.result.value)) else Err(p.result.error), p.next)
  }

  /** `int.decode` after `int.encode(n)` returns n for every n from −2^52
      up to the largest safe integer. */
  lemma {:induction false} IntRoundTrip(n: int, buf: seq<byte>, at: nat)
    requires MinExactInt <= n <= MaxSafe
    requires at + UintSize(ZigZagEncode(n)) <= |buf|
    requires buf[at..at + UintSize(ZigZagEncode(n))] == UintBytes(ZigZagEncode(n))
    ensures IntParse(buf, at) == Parsed(Ok(n), at + UintSize(ZigZagEncode(n)))
  {
    assert Pow256(8) == 0x1_0000_0000_0000_0000;
    UintRoundTrip(ZigZagEncode(n), buf, at);
    ZigZagRoundTrip(n);
  }

  /** `int.preencode`. */
  method IntPreencode(st: State, n: int)
    requires -(MaxSafe as int) <= n <= MaxSafe
    modifies st`end
    ensures st.end == old(st.end) + UintSize(ZigZagEncode(n))
  {
    UintPreencode(st, ZigZagEncode(n));
  }

  /** `int.encode`. */
  method IntEncode(st: State, n: int)
    requires st.buffer != null && -(MaxSafe as int) <= n <= MaxSafe
    modifies st`start, st.buffer
    ensures st.buffer[..] == Overlay(old(st.buffer[..]), old(st.start), UintBytes(ZigZagEncode(n)))
    ensures st.start == old(st.start) + UintSize(ZigZagEncode(n))
  {
    UintEncode(st, ZigZagEncode(n));
  }

  /** `int.decode`. */
  method IntDecode(st: State) returns (r: Result<int>)
    requires st.buffer != null
    modifies st`start
    ensures Parsed(r, st.start) == IntParse(st.buffer[..], old(st.start))
  {
    var u := UintDecode(st);
    r := if u.Ok? then Ok(ZigZagDecode(u.value)) else Err(u.error);
  }
}
