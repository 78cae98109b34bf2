/** `array(enc)` (index.js:239-257) over the codecs of index.js that
    compose, and the top-level `encode(enc, value)` / `decode(enc, buffer)`
    helpers (index.d.ts:21-25, 172-176) that drive one codec through the
    preencode / alloc / encode / decode protocol of test.js:5-26. */
module CompactArray {
  import opened Wire
  import opened Cursor
  import opened CompactUint
  import opened CompactBytes
  import opened CompactString

  /** The largest element count `array(enc).decode` accepts. */
  const MaxArray: nat := 1048576

  /** A codec that can be an array's element: `uint`, `int`, `bool`,
      `buffer`, `string`, `fixed(n)` (with `fixed32`, `fixed64`), or
      `array(enc)` itself. */
  datatype Codec = Uint | Int | Bool | Buffer | Str | Fixed(n: nat) | Array(elem: Codec)

  /** A JavaScript value as the codecs see it. */
  datatype Value =
    | UintV(n: nat)
    | IntV(i: int)
    | BoolV(b: bool)
    | BufferV(m: Maybe<seq<byte>>)
    | StrV(s: string)
    | FixedV(bytes: seq<byte>)
    | ArrayV(items: seq<Value>)

  /** v is a value codec c can encode: of its kind, numbers and lengths
      safe integers, and a fixed block of exactly n bytes. Encoding puts
      no ceiling on an array's length. */
  predicate Typed(c: Codec, v: Value)
    decreases c, 0
  {
    match c
    case Uint => v.UintV? && v.n <= MaxSafe
    case Int => v.IntV? && -(MaxSafe as int) <= v.i <= MaxSafe
    case Bool => v.BoolV?
    case Buffer => v.BufferV? && (v.m.Some? ==> |v.m.value| <= MaxSafe)
    case Str => v.StrV? && |Utf8(v.s)| <= MaxSafe
    case Fixed(n) => v.FixedV? && |v.bytes| == n
    case Array(e) => v.ArrayV? && |v.items| <= MaxSafe && TypedAll(e, v.items)
  }

  /** Every element is a value the element codec is meant for. */
  predicate TypedAll(e: Codec, items: seq<Value>)
    decreases e, 1, |items|
  {
    items == [] || (Typed(e, items[0]) && TypedAll(e, items[1..]))
  }

  /** Decoding can give v back: every array in it is within the
      ceiling decode checks, and every int is at least −2^52, below which
      `zigzagEncode` rounds. */
  predicate Recoverable(c: Codec, v: Value)
    decreases c, 0
  {
    match c
    case Int => v.IntV? && MinExactInt <= v.i
    case Array(e) => v.ArrayV? && |v.items| <= MaxArray && RecoverableAll(e, v.items)
    case _ => true
  }

  predicate RecoverableAll(e: Codec, items: seq<Value>)
    decreases e, 1, |items|
  {
    items == [] || (Recoverable(e, items[0]) && RecoverableAll(e, items[1..]))
  }

  /** Bytes `c.preencode(state, v)` adds to `state.end`. */
  function Size(c: Codec, v: Value): nat
    decreases c, 0
  {
    match c
    case Uint => if v.UintV? then UintSize(v.n) else 0
    case Int => if v.IntV? && -(MaxSafe as int) <= v.i <= MaxSafe then UintSize(ZigZagEncode(v.i)) else 0
    case Bool => 1
    case Buffer => if v.BufferV? then BufferSize(v.m) else 0
    case Str => if v.StrV? then StrSize(v.s) else 0
    case Fixed(n) => n
    case Array(e) => if v.ArrayV? then UintSize(|v.items|) + SizeAll(e, v.items) else 0
  }

  /** Bytes the elements of an array add, one after the other. */
  function SizeAll(e: Codec, items: seq<Value>): nat
    decreases e, 1, |items|
  {
    if items == [] then 0 else Size(e, items[0]) + SizeAll(e, items[1..])
  }

  /** Bytes `c.encode(state, v)` stores; there are as many as preencode counted. */
  function Bytes(c: Codec, v: Value): (r: seq<byte>)
    requires Typed(c, v)
    ensures |r| == Size(c, v)
    decreases c, 0
  {
    match c
    case Uint => UintBytes(v.n)
    case Int => UintBytes(ZigZagEncode(v.i))
    case Bool => [if v.b then 1 else 0]
    case Buffer => BufferBytes(v.m)
    case Str => StrBytes(v.s)
    case Fixed(n) => v.bytes
    case Array(e) => UintBytes(|v.items|) + BytesAll(e, v.items)
  }

  /** The elements' bytes, one after the other. */
  function BytesAll(e: Codec, items: seq<Value>): (r: seq<byte>)
    requires TypedAll(e, items)
    ensures |r| == SizeAll(e, items)
    decreases e, 1, |items|
  {
    if items == [] then [] else Bytes(e, items[0]) + BytesAll(e, items[1..])
  }

  /** What decoding gives back for v: an empty buffer comes back as null. */
  function Canonical(c: Codec, v: Value): Value
    decreases c, 0
  {
    match c
    case Buffer => if v.BufferV? then BufferV(BufferDecoded(v.m)) else v
    case Array(e) => if v.ArrayV? then ArrayV(CanonicalAll(e, v.items)) else v
    case _ => v
  }

  function CanonicalAll(e: Codec, items: seq<Value>): (r: seq<Value>)
    ensures |r| == |items|
    decreases e, 1, |items|
  {
    if items == [] then [] else [Canonical(e, items[0])] + CanonicalAll(e, items[1..])
  }

  /** A decoder's outcome with its value wrapped as a Value. */
  function Lift<T>(p: Parsed<T>, f: T -> Value): Parsed<Value>
  {
    Parsed(if p.result.Ok? then Ok(f(p.result.value)) else Err(p.result.error), p.next)
  }

  /** The outcome q of decoding what follows, with the values already
      decoded in front of its own. */
  function Then(done: seq<Value>, q: Parsed<seq<Value>>): Parsed<seq<Value>>
  {
    Parsed(if q.result.Ok? then Ok(done + q.result.value) else Err(q.result.error), q.next)
  }

  /** What `c.decode(state)` returns with `state.start` at `at`. */
  function Parse(c: Codec, buf: seq<byte>, at: nat): Parsed<Value>
    decreases c, 0
  {
    match c
    case Uint => Lift(UintParse(buf, at), n => UintV(n))
    case Int => Lift(IntParse(buf, at), i => IntV(i))
    case Bool => Lift(BoolParse(buf, at), b => BoolV(b))
    case Buffer => Lift(BufferParse(buf, at), m => BufferV(m))
    case Str => Lift(StrParse(buf, at), s => StrV(s))
    case Fixed(n) => Lift(FixedParse(buf, at, n), bs => FixedV(bs))
    case Array(e) => ParseArray(e, buf, at)
  }

  /** What `array(e).decode` returns: the count, the ceiling checked
      before any element is read, then the elements. */
  function ParseArray(e: Codec, buf: seq<byte>, at: nat): Parsed<Value>
    decreases e, 2
  {
    var p := UintParse(buf, at);
    if p.result.Err? then Parsed(Err(p.result.error), p.next)
    else if p.result.value > MaxArray then Parsed(Err(ArrayTooBig), p.next)
    else Lift(ParseAll(e, buf, p.next, p.result.value), items => ArrayV(items))
  }

  /** `count` elements decoded one after the other from `at` on; the
      first that throws ends the decode. */
  function ParseAll(e: Codec, buf: seq<byte>, at: nat, count: nat): Parsed<seq<Value>>
    decreases e, 1, count
  {
    if count == 0 then Parsed(Ok([]), at)
    else
      var p := Parse(e, buf, at);
      if p.result.Err? then Parsed(Err(p.result.error), p.next)
      else Then([p.result.value], ParseAll(e, buf, p.next, count - 1))
  }

  // Round trip

  /** `c.decode` after `c.encode(v)` gives v back (an empty buffer as
      null), with the cursor just past the bytes preencode counted. */
  lemma {:induction false} RoundTrip(c: Codec, v: Value, buf: seq<byte>, at: nat)
    requires Typed(c, v) && Recoverable(c, v)
    requires StoredAt(buf, at, Bytes(c, v))
    ensures Parse(c, buf, at) == Parsed(Ok(Canonical(c, v)), at + Size(c, v))
    decreases c, 0
  {
    match c
    case Uint => UintCase(v.n, buf, at);
    case Int => IntCase(v.i, buf, at);
    case Bool => BoolCase(v.b, buf, at);
    case Buffer => BufferCase(v.m, buf, at);
    case Str => StrCase(v.s, buf, at);
    case Fixed(n) => FixedCase(n, v.bytes, buf, at);
    case Array(e) => ArrayRoundTrip(e, v.items, buf, at);
  }

  lemma {:induction false} UintCase(n: nat, buf: seq<byte>, at: nat)
    requires n <= MaxSafe && StoredAt(buf, at, UintBytes(n))
    ensures Parse(Uint, buf, at) == Parsed(Ok(UintV(n)), at + UintSize(n))
  {
    StoredSlice(buf, at, UintBytes(n));
    assert Pow256(8) == 0x1_0000_0000_0000_0000;
    UintRoundTrip(n, buf, at);
  }

  lemma {:induction false} IntCase(i: int, buf: seq<byte>, at: nat)
    requires MinExactInt <= i <= MaxSafe && StoredAt(buf, at, UintBytes(ZigZagEncode(i)))
    ensures Parse(Int, buf, at) == Parsed(Ok(IntV(i)), at + UintSize(ZigZagEncode(i)))
  {
    StoredSlice(buf, at, UintBytes(ZigZagEncode(i)));
    IntRoundTrip(i, buf, at);
  }

  lemma {:induction false} BoolCase(b: bool, buf: seq<byte>, at: nat)
    requires StoredAt(buf, at, [if b then 1 else 0])
    ensures Parse(Bool, buf, at) == Parsed(Ok(BoolV(b)), at + 1)
  {
    BoolRoundTrip(b, buf, at);
  }

  lemma {:induction false} BufferCase(m: Maybe<seq<byte>>, buf: seq<byte>, at: nat)
    requires (m.Some? ==> |m.value| <= MaxSafe) && StoredAt(buf, at, BufferBytes(m))
    ensures Parse(Buffer, buf, at) == Parsed(Ok(BufferV(BufferDecoded(m))), at + BufferSize(m))
  {
    StoredSlice(buf, at, BufferBytes(m));
    BufferRoundTrip(m, buf, at);
  }

  lemma {:induction false} StrCase(t: string, buf: seq<byte>, at: nat)
    requires |Utf8(t)| <= MaxSafe && StoredAt(buf, at, StrBytes(t))
    ensures Parse(Str, buf, at) == Parsed(Ok(StrV(t)), at + StrSize(t))
  {
    StoredSlice(buf, at, StrBytes(t));
    StrRoundTrip(t, buf, at);
  }

  lemma {:induction false} FixedCase(n: nat, bs: seq<byte>, buf: seq<byte>, at: nat)
    requires |bs| == n && StoredAt(buf, at, bs)
    ensures Parse(Fixed(n), buf, at) == Parsed(Ok(FixedV(bs)), at + n)
  {
    StoredSlice(buf, at, bs);
    FixedRoundTrip(bs, buf, at);
  }

  /** The array case of RoundTrip: the count, then the elements. */
  lemma {:induction false} ArrayRoundTrip(e: Codec, items: seq<Value>, buf: seq<byte>, at: nat)
    requires |items| <= MaxArray && TypedAll(e, items) && RecoverableAll(e, items)
    requires StoredAt(buf, at, UintBytes(|items|) + BytesAll(e, items))
    ensures ParseArray(e, buf, at) == Parsed(Ok(ArrayV(CanonicalAll(e, items))), at + UintSize(|items|) + SizeAll(e, items))
    decreases e, 1, |items| + 1
  {
    StoredSplit(buf, at, UintBytes(|items|), BytesAll(e, items));
    CountParses(|items|, buf, at);
    RoundTripAll(e, items, buf, at + |UintBytes(|items|)|);
    ArrayAfterCount(e, items, buf, at);
  }

  /** A stored count reads back. */
  lemma {:induction false} CountParses(n: nat, buf: seq<byte>, at: nat)
    requires n <= MaxSafe && StoredAt(buf, at, UintBytes(n))
    ensures UintParse(buf, at) == Parsed(Ok(n), at + |UintBytes(n)|)
  {
    StoredSlice(buf, at, UintBytes(n));
    assert Pow256(8) == 0x1_0000_0000_0000_0000;
    UintRoundTrip(n, buf, at);
  }

  /** A count within the ceiling followed by its elements is the array. */
  lemma {:induction false} ArrayAfterCount(e: Codec, items: seq<Value>, buf: seq<byte>, at: nat)
    requires |items| <= MaxArray
    requires UintParse(buf, at) == Parsed(Ok(|items|), at + |UintBytes(|items|)|)
    requires ParseAll(e, buf, at + |UintBytes(|items|)|, |items|)
             == Parsed(Ok(CanonicalAll(e, items)), at + |UintBytes(|items|)| + SizeAll(e, items))
    ensures ParseArray(e, buf, at) == Parsed(Ok(ArrayV(CanonicalAll(e, items))), at + UintSize(|items|) + SizeAll(e, items))
  {
  }

  /** Elements stored one after the other decode one after the other. */
  lemma {:induction false} RoundTripAll(e: Codec, items: seq<Value>, buf: seq<byte>, at: nat)
    requires TypedAll(e, items) && RecoverableAll(e, items)
    requires StoredAt(buf, at, BytesAll(e, items))
    ensures ParseAll(e, buf, at, |items|) == Parsed(Ok(CanonicalAll(e, items)), at + SizeAll(e, items))
    decreases e, 1, |items|
  {
    if items != [] {
      var next := HeadStep(e, items, buf, at);
      RoundTripAll(e, items[1..], buf, next);
      ConsAll(e, items, buf, at, next);
    }
  }

  /** The first element's value in front of the rest's values. */
  lemma {:induction false} ConsAll(e: Codec, items: seq<Value>, buf: seq<byte>, at: nat, next: nat)
    requires items != [] && next + SizeAll(e, items[1..]) == at + SizeAll(e, items)
    requires ParseAll(e, buf, at, |items|) == Then([Canonical(e, items[0])], ParseAll(e, buf, next, |items[1..]|))
    requires ParseAll(e, buf, next, |items[1..]|) == Parsed(Ok(CanonicalAll(e, items[1..])), next + SizeAll(e, items[1..]))
    ensures ParseAll(e, buf, at, |items|) == Parsed(Ok(CanonicalAll(e, items)), at + SizeAll(e, items))
  {
  }

  /** The first element's bytes, then the rest's, each where they belong. */
  lemma {:induction false} HeadBytes(e: Codec, items: seq<Value>, buf: seq<byte>, at: nat) returns (next: nat)
    requires items != [] && TypedAll(e, items)
    requires StoredAt(buf, at, BytesAll(e, items))
    ensures Typed(e, items[0]) && TypedAll(e, items[1..]) && next == at + Size(e, items[0])
    ensures next + SizeAll(e, items[1..]) == at + SizeAll(e, items)
    ensures StoredAt(buf, at, Bytes(e, items[0])) && StoredAt(buf, next, BytesAll(e, items[1..]))
  {
    StoredSplit(buf, at, Bytes(e, items[0]), BytesAll(e, items[1..]));
    next := at + Size(e, items[0]);
  }

  /** The first of a stored run of elements decodes, and the rest of the
      run is stored right after it. */
  lemma {:induction false} HeadStep(e: Codec, items: seq<Value>, buf: seq<byte>, at: nat) returns (next: nat)
    requires items != [] && TypedAll(e, items) && RecoverableAll(e, items)
    requires StoredAt(buf, at, BytesAll(e, items))
    ensures TypedAll(e, items[1..]) && RecoverableAll(e, items[1..]) && StoredAt(buf, next, BytesAll(e, items[1..]))
    ensures next + SizeAll(e, items[1..]) == at + SizeAll(e, items)
    ensures ParseAll(e, buf, at, |items|) == Then([Canonical(e, items[0])], ParseAll(e, buf, next, |items[1..]|))
    decreases e, 1, |items|, 1
  {
    next := HeadBytes(e, items, buf, at);
    HeadParses(e, items, buf, at, next);
  }

  /** The first of a run of elements decodes when its bytes are stored. */
  lemma {:induction false} HeadParses(e: Codec, items: seq<Value>, buf: seq<byte>, at: nat, next: nat)
    requires items != [] && Typed(e, items[0]) && Recoverable(e, items[0]) && next == at + Size(e, items[0])
    requires StoredAt(buf, at, Bytes(e, items[0]))
    ensures ParseAll(e, buf, at, |items|) == Then([Canonical(e, items[0])], ParseAll(e, buf, next, |items[1..]|))
    decreases e, 1, |items|, 0
  {
    RoundTrip(e, items[0], buf, at);
    ValueThenAll(e, buf, at, |items|, Canonical(e, items[0]), next);
  }

  /** A count above the ceiling throws 'Array is too big' with the cursor
      just past the count, before any element is read. */
  lemma {:induction false} ArrayCeiling(e: Codec, buf: seq<byte>, at: nat)
    requires UintParse(buf, at).result.Ok? && UintParse(buf, at).result.value > MaxArray
    ensures ParseArray(e, buf, at) == Parsed(Err(ArrayTooBig), UintParse(buf, at).next)
  {
  }

  /** An array longer than the ceiling is encoded like any other, but
      decoding it throws 'Array is too big' just past its count. */
  lemma {:induction false} ArrayTooLong(e: Codec, items: seq<Value>, buf: seq<byte>, at: nat)
    requires MaxArray < |items| && Typed(Array(e), ArrayV(items))
    requires StoredAt(buf, at, Bytes(Array(e), ArrayV(items)))
    ensures ParseArray(e, buf, at) == Parsed(Err(ArrayTooBig), at + UintSize(|items|))
  {
    StoredSplit(buf, at, UintBytes(|items|), BytesAll(e, items));
    CountParses(|items|, buf, at);
  }

  /** `array(bool)` in test.js:388-408: the size preencode sums and the
      bytes encode stores. */
  lemma {:induction false} ArrayEncodeExample()
    ensures Size(Array(Bool), ArrayV([BoolV(true), BoolV(false), BoolV(true)])) == 4
    ensures Bytes(Array(Bool), ArrayV([BoolV(true), BoolV(false), BoolV(true)])) == [3, 1, 0, 1]
  {
    var t, f := BoolV(true), BoolV(false);
    assert TypedAll(Bool, [t]);
    assert [f, t][1..] == [t];
    assert TypedAll(Bool, [f, t]);
    assert [t, f, t][1..] == [f, t];
    assert BytesAll(Bool, [t]) == [1];
    assert BytesAll(Bool, [f, t]) == [0, 1];
    assert BytesAll(Bool, [t, f, t]) == [1, 0, 1];
  }

  /** `array(bool)` in test.js:388-408: decoding the second array of the
      buffer the test fills, and the throw once the cursor is at the end. */
  lemma {:induction false} ArrayDecodeExample()
    ensures Parse(Array(Bool), [3, 1, 0, 1, 4, 0, 0, 1, 1], 4)
            == Parsed(Ok(ArrayV([BoolV(false), BoolV(false), BoolV(true), BoolV(true)])), 9)
    ensures Parse(Array(Bool), [3, 1, 0, 1, 4, 0, 0, 1, 1], 9).result == Err(OutOfBounds)
  {
    var buf: seq<byte> := [3, 1, 0, 1, 4, 0, 0, 1, 1];
    assert UintParse(buf, 4) == Parsed(Ok(4), 5);
    assert Parse(Bool, buf, 5) == Parsed(Ok(BoolV(false)), 6);
    assert Parse(Bool, buf, 6) == Parsed(Ok(BoolV(false)), 7);
    assert Parse(Bool, buf, 7) == Parsed(Ok(BoolV(true)), 8);
    assert Parse(Bool, buf, 8) == Parsed(Ok(BoolV(true)), 9);
    var t, f := BoolV(true), BoolV(false);
    assert ParseAll(Bool, buf, 9, 0) == Parsed(Ok([]), 9);
    assert [t] + [] == [t];
    assert ParseAll(Bool, buf, 8, 1) == Parsed(Ok([t]), 9);
    assert [t] + [t] == [t, t];
    assert ParseAll(Bool, buf, 7, 2) == Parsed(Ok([t, t]), 9);
    assert [f] + [t, t] == [f, t, t];
    assert ParseAll(Bool, buf, 6, 3) == Parsed(Ok([f, t, t]), 9);
    assert [f] + [f, t, t] == [f, f, t, t];
    assert ParseAll(Bool, buf, 5, 4) == Parsed(Ok([f, f, t, t]), 9);
  }

  // Facts the loops need

  lemma {:induction false} SizeAllAppend(e: Codec, a: seq<Value>, b: seq<Value>)
    ensures SizeAll(e, a + b) == SizeAll(e, a) + SizeAll(e, b)
    decreases |a|
  {
    if a != [] {
      assert (a + b)[0] == a[0] && (a + b)[1..] == a[1..] + b;
      SizeAllAppend(e, a[1..], b);
    } else {
      assert a + b == b;
    }
  }

  lemma {:induction false} TypedAllAppend(e: Codec, a: seq<Value>, b: seq<Value>)
    ensures TypedAll(e, a + b) <==> TypedAll(e, a) && TypedAll(e, b)
    decreases |a|
  {
    if a != [] {
      assert (a + b)[0] == a[0] && (a + b)[1..] == a[1..] + b;
      TypedAllAppend(e, a[1..], b);
    } else {
      assert a + b == b;
    }
  }

  lemma {:induction false} BytesAllAppend(e: Codec, a: seq<Value>, b: seq<Value>)
    requires TypedAll(e, a) && TypedAll(e, b)
    ensures TypedAll(e, a + b)
    ensures BytesAll(e, a + b) == BytesAll(e, a) + BytesAll(e, b)
    decreases |a|
  {
    TypedAllAppend(e, a, b);
    if a != [] {
      assert (a + b)[0] == a[0] && (a + b)[1..] == a[1..] + b;
      BytesAllAppend(e, a[1..], b);
    } else {
      assert a + b == b;
    }
  }

  /** The prefix items[..i], the element at i, and the prefix one longer
      are all typed when items is. */
  lemma {:induction false} TypedSnoc(e: Codec, items: seq<Value>, i: nat)
    requires i < |items| && TypedAll(e, items)
    ensures TypedAll(e, items[..i]) && Typed(e, items[i]) && TypedAll(e, items[..i + 1])
  {
    assert items == items[..i] + items[i..];
    TypedAllAppend(e, items[..i], items[i..]);
    assert items == items[..i + 1] + items[i + 1..];
    TypedAllAppend(e, items[..i + 1], items[i + 1..]);
  }

  /** One more element counted at the end of the prefix items[..i]. */
  lemma {:induction false} SizeSnoc(e: Codec, items: seq<Value>, i: nat)
    requires i < |items|
    ensures SizeAll(e, items[..i + 1]) == SizeAll(e, items[..i]) + Size(e, items[i])
    ensures SizeAll(e, items[..i + 1]) <= SizeAll(e, items)
  {
    assert items[..i + 1] == items[..i] + [items[i]];
    assert [items[i]][1..] == [];
    SizeAllAppend(e, items[..i], [items[i]]);
    assert items == items[..i + 1] + items[i + 1..];
    SizeAllAppend(e, items[..i + 1], items[i + 1..]);
  }

  /** One more element stored at the end of the prefix items[..i]. */
  lemma {:induction false} BytesSnoc(e: Codec, items: seq<Value>, i: nat)
    requires i < |items| && TypedAll(e, items[..i]) && Typed(e, items[i])
    ensures TypedAll(e, items[..i + 1])
    ensures BytesAll(e, items[..i + 1]) == BytesAll(e, items[..i]) + Bytes(e, items[i])
  {
    assert items[..i + 1] == items[..i] + [items[i]];
    assert [items[i]][1..] == [];
    BytesAllAppend(e, items[..i], [items[i]]);
  }

  /** An element that throws ends the elements' decode with its error. */
  lemma {:induction false} ErrorEndsAll(e: Codec, buf: seq<byte>, at: nat, count: nat, err: Error, next: nat)
    requires count > 0 && Parse(e, buf, at) == Parsed(Err(err), next)
    ensures ParseAll(e, buf, at, count) == Parsed(Err(err), next)
  {
  }

  /** An element that decodes comes first among the elements decoded. */
  lemma {:induction false} ValueThenAll(e: Codec, buf: seq<byte>, at: nat, count: nat, x: Value, next: nat)
    requires count > 0 && Parse(e, buf, at) == Parsed(Ok(x), next)
    ensures ParseAll(e, buf, at, count) == Then([x], ParseAll(e, buf, next, count - 1))
  {
  }

  /** One more element decoded extends the values decoded so far. */
  lemma {:induction false} DecodeStep(e: Codec, buf: seq<byte>, from: nat, count: nat, arr: seq<Value>, i: nat, at: nat, x: Value, next: nat)
    requires i < count && ParseAll(e, buf, from, count) == Then(arr, ParseAll(e, buf, at, count - i))
    requires Parse(e, buf, at) == Parsed(Ok(x), next)
    ensures ParseAll(e, buf, from, count) == Then(arr + [x], ParseAll(e, buf, next, count - (i + 1)))
  {
    ValueThenAll(e, buf, at, count - i, x, next);
    ThenThen(arr, x, ParseAll(e, buf, next, count - i - 1));
  }

  /** An element that throws is where the elements' decode stops. */
  lemma {:induction false} DecodeStopped(e: Codec, buf: seq<byte>, from: nat, count: nat, arr: seq<Value>, i: nat, at: nat, err: Error, next: nat)
    requires i < count && ParseAll(e, buf, from, count) == Then(arr, ParseAll(e, buf, at, count - i))
    requires Parse(e, buf, at) == Parsed(Err(err), next)
    ensures ParseAll(e, buf, from, count) == Parsed(Err(err), next)
  {
    ErrorEndsAll(e, buf, at, count - i, err, next);
  }

  /** Nothing decoded yet leaves the outcome as it is. */
  lemma {:induction false} ThenNone(q: Parsed<seq<Value>>)
    ensures Then([], q) == q
  {
    if q.result.Ok? {
      assert [] + q.result.value == q.result.value;
    }
  }

  /** Stores that continue where the earlier ones ended extend them. */
  lemma {:induction false} OverlayStep(buf: seq<byte>, at: nat, written: seq<byte>, bs: seq<byte>, before: seq<byte>, pos: nat, after: seq<byte>)
    requires before == Overlay(buf, at, written) && pos == at + |written|
    requires after == Overlay(before, pos, bs)
    ensures after == Overlay(buf, at, written + bs)
  {
    OverlayAppend(buf, at, written, bs);
  }

  /** Values decoded so far, then one more, then the rest. */
  lemma {:induction false} ThenThen(done: seq<Value>, x: Value, q: Parsed<seq<Value>>)
    ensures Then(done, Then([x], q)) == Then(done + [x], q)
  {
    if q.result.Ok? {
      assert done + ([x] + q.result.value) == (done + [x]) + q.result.value;
    }
  }

  // The codec methods

  /** `c.preencode(state, v)`. */
  method Preencode(st: State, c: Codec, v: Value)
    requires Typed(c, v)
    modifies st`end
    ensures st.end == old(st.end) + Size(c, v)
    decreases c, 0
  {
    match c
    case Uint => UintPreencode(st, v.n);
    case Int => IntPreencode(st, v.i);
    case Bool => BoolPreencode(st, v.b);
    case Buffer => BufferPreencode(st, v.m);
    case Str => StrPreencode(st, v.s);
    case Fixed(n) => FixedPreencode(st, n, v.bytes);
    case Array(e) =>
      var items := v.items;
      UintPreencode(st, |items|);
      var i := 0;
      while i < |items|
        invariant 0 <= i <= |items|
        invariant st.end == old(st.end) + UintSize(|items|) + SizeAll(e, items[..i])
      {
        TypedSnoc(e, items, i);
        SizeSnoc(e, items, i);
        Preencode(st, e, items[i]);
        i := i + 1;
      }
      assert items[..i] == items;
  }

  /** `c.encode(state, v)`. When the bytes fit from `state.start` on, it
      stores exactly `Bytes(c, v)` and moves the cursor by the size
      preencode counted; whenever it does not throw, the cursor moves by
      that size. */
  method Encode(st: State, c: Codec, v: Value) returns (s: Status)
    requires st.buffer != null && Typed(c, v)
    modifies st`start, st.buffer
    ensures s.Done? ==> st.start == old(st.start) + Size(c, v)
    ensures old(st.start) + Size(c, v) <= st.buffer.Length ==>
              s.Done? && st.buffer[..] == Overlay(old(st.buffer[..]), old(st.start), Bytes(c, v))
    decreases c, 0
  {
    match c
    case Uint => UintEncode(st, v.n); s := Done;
    case Int => IntEncode(st, v.i); s := Done;
    case Bool => BoolEncode(st, v.b); s := Done;
    case Buffer => s := BufferEncode(st, v.m);
    case Str => s := StrEncode(st, v.s);
    case Fixed(n) => s := FixedEncode(st, n, v.bytes);
    case Array(e) => s := EncodeArray(st, e, v.items);
  }

  /** `array(enc).encode`: the count, then each element in order; an
      element that throws ends it. */
  method EncodeArray(st: State, e: Codec, items: seq<Value>) returns (s: Status)
    requires st.buffer != null && Typed(Array(e), ArrayV(items))
    modifies st`start, st.buffer
    ensures s.Done? ==> st.start == old(st.start) + UintSize(|items|) + SizeAll(e, items)
    ensures old(st.start) + UintSize(|items|) + SizeAll(e, items) <= st.buffer.Length ==>
              s.Done? && st.buffer[..] == Overlay(old(st.buffer[..]), old(st.start), UintBytes(|items|) + BytesAll(e, items))
    decreases e, 1
  {
    ghost var buf0, start0 := st.buffer[..], st.start;
    ghost var fits := start0 + UintSize(|items|) + SizeAll(e, items) <= st.buffer.Length;
    UintEncode(st, |items|);
    ghost var buf1, start1 := st.buffer[..], st.start;
    assert items[..0] == [];
    assert Overlay(buf1, start1, []) == buf1;
    s := Done;
    var i := 0;
    while i < |items|
      invariant 0 <= i <= |items| && s.Done?
      invariant TypedAll(e, items[..i])
      invariant st.start == start1 + SizeAll(e, items[..i])
      invariant fits ==> st.buffer[..] == Overlay(buf1, start1, BytesAll(e, items[..i]))
    {
      TypedSnoc(e, items, i);
      SizeSnoc(e, items, i);
      BytesSnoc(e, items, i);
      ghost var before, at, bs := st.buffer[..], st.start, Bytes(e, items[i]);
      s := Encode(st, e, items[i]);
      if !s.Done? {
        return;
      }
      if fits {
        assert at + Size(e, items[i]) <= st.buffer.Length;
        ghost var after := st.buffer[..];
        assert after == Overlay(before, at, bs);
        OverlayStep(buf1, start1, BytesAll(e, items[..i]), bs, before, at, after);
      }
      i := i + 1;
    }
    assert items[..i] == items;
    if fits {
      ghost var after := st.buffer[..];
      assert after == Overlay(buf1, start1, BytesAll(e, items));
      OverlayStep(buf0, start0, UintBytes(|items|), BytesAll(e, items), buf1, start1, after);
    }
  }

  /** `c.decode(state)`. */
  method Decode(st: State, c: Codec) returns (r: Result<Value>)
    requires st.buffer != null
    modifies st`start
    ensures Parsed(r, st.start) == Parse(c, st.buffer[..], old(st.start))
    decreases c, 0
  {
    match c
    case Uint =>
      var x := UintDecode(st);
      r := if x.Ok? then Ok(UintV(x.value)) else Err(x.error);
    case Int =>
      var x := IntDecode(st);
      r := if x.Ok? then Ok(IntV(x.value)) else Err(x.error);
    case Bool =>
      var x := BoolDecode(st);
      r := if x.Ok? then Ok(BoolV(x.value)) else Err(x.error);
    case Buffer =>
      var x := BufferDecode(st);
      r := if x.Ok? then Ok(BufferV(x.value)) else Err(x.error);
    case Str =>
      var x := StrDecode(st);
      r := if x.Ok? then Ok(StrV(x.value)) else Err(x.error);
    case Fixed(n) =>
      var x := FixedDecode(st, n);
      r := if x.Ok? then Ok(FixedV(x.value)) else Err(x.error);
    case Array(e) =>
      r := DecodeArray(st, e);
  }

  /** `array(enc).decode`: the count, the ceiling, then the elements. */
  method DecodeArray(st: State, e: Codec) returns (r: Result<Value>)
    requires st.buffer != null
    modifies st`start
    ensures Parsed(r, st.start) == ParseArray(e, st.buffer[..], old(st.start))
    decreases e, 1
  {
    var len := UintDecode(st);
    if len.Err? {
      return Err(len.error);
    }
    if len.value > MaxArray {
      return Err(ArrayTooBig);
    }
    var items := DecodeElements(st, e, len.value);
    r := if items.Ok? then Ok(ArrayV(items.value)) else Err(items.error);
  }

  /** The loop of `array(enc).decode`: `count` elements one after the
      other; an element that throws ends it. */
  method DecodeElements(st: State, e: Codec, count: nat) returns (r: Result<seq<Value>>)
    requires st.buffer != null
    modifies st`start
    ensures Parsed(r, st.start) == ParseAll(e, st.buffer[..], old(st.start), count)
    decreases e, 1, 0
  {
    ghost var from, buf := st.start, st.buffer[..];
    var arr: seq<Value> := [];
    ThenNone(ParseAll(e, buf, from, count));
    var i := 0;
    while i < count
      invariant 0 <= i <= count
      invariant st.buffer[..] == buf
      invariant ParseAll(e, buf, from, count) == Then(arr, ParseAll(e, buf, st.start, count - i))
    {
      ghost var at := st.start;
      var x := Decode(st, e);
      if x.Err? {
        DecodeStopped(e, buf, from, count, arr, i, at, x.error, st.start);
        return Err(x.error);
      }
      DecodeStep(e, buf, from, count, arr, i, at, x.value, st.start);
      arr := arr + [x.value];
      i := i + 1;
    }
    assert arr + [] == arr;
    r := Ok(arr);
  }

  // The top-level helpers

  /** `encode(enc, value)`: preencode into a fresh state, allocate `end`
      zero bytes, encode into them, return the buffer. */
  method EncodeValue(c: Codec, v: Value) returns (out: array<byte>)
    requires Typed(c, v)
    ensures fresh(out)
    ensures out[..] == Bytes(c, v)
  {
    var st := new State(0, 0, null);
    Preencode(st, c, v);
    out := new byte[st.end](_ => 0);
    st.buffer := out;
    ghost var zeros := out[..];
    var s := Encode(st, c, v);
    OverlayWhole(zeros, Bytes(c, v));
  }

  /** `decode(enc, buffer)`: decode from `state(0, buffer.length, buffer)`. */
  method DecodeValue(c: Codec, buf: array<byte>) returns (r: Result<Value>)
    ensures r == Parse(c, buf[..], 0).result
  {
    var st := new State(0, buf.Length, buf);
    r := Decode(st, c);
  }

  /** What `decode(enc, encode(enc, v))` returns: v itself, an empty
      buffer anywhere inside it coming back as null. */
  lemma {:induction false} TopRoundTrip(c: Codec, v: Value)
    requires Typed(c, v) && Recoverable(c, v)
    ensures Parse(c, Bytes(c, v), 0).result == Ok(Canonical(c, v))
  {
    var bs := Bytes(c, v);
    assert bs[0..|bs|] == bs;
    StoredSlice(bs, 0, bs);
    RoundTrip(c, v, bs, 0);
  }
}
