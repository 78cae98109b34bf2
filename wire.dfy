/** Byte-level vocabulary shared by every codec: bytes, fixed-width
    little- and big-endian integers, writes clipped to a buffer, and the
    unsigned byte-wise order that `Buffer.compare` implements. */
module Wire {

  /** One element of a Uint8Array. */
  newtype byte = x: int | 0 <= x < 256

  /** 256^k, the number of values k bytes can hold. */
  function Pow256(k: nat): (r: nat)
    ensures r >= 1
    ensures k > 0 ==> r >= 256
  {
    if k == 0 then 1 else 256 * Pow256(k - 1)
  }

  /** The k low-order bytes of n, least significant first. */
  function LE(n: nat, k: nat): (r: seq<byte>)
    ensures |r| == k
  {
    if k == 0 then [] else [(n % 256) as byte] + LE(n / 256, k - 1)
  }

  /** The number whose little-endian bytes are s. */
  function FromLE(s: seq<byte>): (r: nat)
    ensures r < Pow256(|s|)
  {
    if s == [] then 0 else s[0] as nat + 256 * FromLE(s[1..])
  }

  /** The k low-order bytes of n, most significant first. */
  function BE(n: nat, k: nat): (r: seq<byte>)
    ensures |r| == k
  {
    if k == 0 then [] else BE(n / 256, k - 1) + [(n % 256) as byte]
  }

  /** The number whose big-endian bytes are s. */
  function FromBE(s: seq<byte>): (r: nat)
    ensures r < Pow256(|s|)
  {
    if s == [] then 0 else 256 * FromBE(s[..|s| - 1]) + s[|s| - 1] as nat
  }

  /** A non-zero multiple of d is at least d away from zero. */
  lemma {:induction false} MulAwayFromZero(d: nat, x: int)
    ensures x > 0 ==> d * x >= d
    ensures x < 0 ==> d * x <= -(d as int)
  {
  }

  /** Division with remainder determines quotient and remainder. */
  lemma {:induction false} DivModUnique(n: nat, d: nat, q: nat, m: nat)
    requires d > 0 && m < d && n == d * q + m
    ensures n / d == q && n % d == m
  {
    var q', m' := n / d, n % d;
    assert d * q' + m' == d * q + m;
    assert d * (q - q') == m' - m;
    MulAwayFromZero(d, q - q');
  }

  /** Taking n modulo 256^(k+1) splits into its low byte and the rest. */
  lemma {:induction false} ModPowStep(n: nat, k: nat)
    ensures n % Pow256(k + 1) == n % 256 + 256 * ((n / 256) % Pow256(k))
  {
    var p := Pow256(k);
    var t, r := n / 256, n % 256;
    var q, b := t / p, t % p;
    assert t == p * q + b;
    assert n == 256 * t + r;
    assert n == (256 * p) * q + (r + 256 * b);
    assert 256 * b + r < 256 * p;
    DivModUnique(n, 256 * p, q, r + 256 * b);
  }

  /** Little-endian bytes read back as the value modulo their range. */
  lemma {:induction false} FromLEOfLE(n: nat, k: nat)
    ensures FromLE(LE(n, k)) == n % Pow256(k)
  {
    if k > 0 {
      var s := LE(n, k);
      assert s[1..] == LE(n / 256, k - 1);
      FromLEOfLE(n / 256, k - 1);
      ModPowStep(n, k - 1);
    }
  }

  /** Big-endian bytes read back as the value modulo their range. */
  lemma {:induction false} FromBEOfBE(n: nat, k: nat)
    ensures FromBE(BE(n, k)) == n % Pow256(k)
  {
    if k > 0 {
      var s := BE(n, k);
      assert s[..k - 1] == BE(n / 256, k - 1);
      FromBEOfBE(n / 256, k - 1);
      ModPowStep(n, k - 1);
    }
  }

  /** A value below 256^k survives the round trip through k bytes. */
  lemma {:induction false} LERoundTrip(n: nat, k: nat)
    requires n < Pow256(k)
    ensures FromLE(LE(n, k)) == n
  {
    FromLEOfLE(n, k);
    DivModUnique(n, Pow256(k), 0, n);
  }

  lemma {:induction false} BERoundTrip(n: nat, k: nat)
    requires n < Pow256(k)
    ensures FromBE(BE(n, k)) == n
  {
    FromBEOfBE(n, k);
    DivModUnique(n, Pow256(k), 0, n);
  }

  /** Eight little-endian bytes are the low four of n and the low four of
      n / 2^32. */
  lemma {:induction false} SplitLE(n: nat)
    ensures LE(n % 0x1_0000_0000, 4) + LE(n / 0x1_0000_0000, 4) == LE(n, 8)
  {
    var a, b := n % 0x1_0000_0000, n / 0x1_0000_0000;
    assert LE(n, 8)[..4] == LE(a, 4) by {
      LEPrefix(n, 4, 4);
    }
    assert LE(n, 8)[4..] == LE(b, 4) by {
      LESuffix(n, 4, 4);
    }
    assert LE(n, 8) == LE(n, 8)[..4] + LE(n, 8)[4..];
  }

  /** The first j bytes of LE(n, j + k) are LE(n mod 256^j, j). */
  lemma {:induction false} LEPrefix(n: nat, j: nat, k: nat)
    ensures LE(n, j + k)[..j] == LE(n % Pow256(j), j)
  {
    if j > 0 {
      LEPrefix(n / 256, j - 1, k);
      ModSplit(n, j);
      assert LE(n % Pow256(j), j) == [(n % 256) as byte] + LE((n / 256) % Pow256(j - 1), j - 1);
      assert LE(n, j + k)[..j] == [(n % 256) as byte] + LE(n / 256, j - 1 + k)[..j - 1];
    }
  }

  /** n mod 256^j keeps the low byte of n, and its other bytes are
      those of n / 256 mod 256^(j-1). */
  lemma {:induction false} ModSplit(n: nat, j: nat)
    requires j > 0
    ensures (n % Pow256(j)) % 256 == n % 256
    ensures (n % Pow256(j)) / 256 == (n / 256) % Pow256(j - 1)
  {
    ModPowStep(n, j - 1);
    var p := Pow256(j - 1);
    var b := (n / 256) % p;
    DivModUnique(n % Pow256(j), 256, b, n % 256);
  }

  /** The bytes of LE(n, j + k) after the first j are LE(n / 256^j, k). */
  lemma {:induction false} LESuffix(n: nat, j: nat, k: nat)
    ensures LE(n, j + k)[j..] == LE(n / Pow256(j), k)
  {
    if j > 0 {
      LESuffix(n / 256, j - 1, k);
      DivDiv(n, j - 1);
      assert LE(n, j + k)[j..] == LE(n / 256, j - 1 + k)[j - 1..];
    }
  }

  /** Dividing by 256 and then by 256^j is dividing by 256^(j+1). */
  lemma {:induction false} DivDiv(n: nat, j: nat)
    ensures (n / 256) / Pow256(j) == n / Pow256(j + 1)
  {
    var p := Pow256(j);
    var q, b := (n / 256) / p, (n / 256) % p;
    assert n == (256 * p) * q + (n % 256 + 256 * b);
    assert n % 256 + 256 * b < 256 * p;
    DivModUnique(n, 256 * p, q, n % 256 + 256 * b);
  }

  /** `buf` after the bytes `bs` have been stored one by one from index
      `at` on through a Uint8Array: stores that fall outside the buffer
      are dropped, so the length never changes. */
  function Overlay(buf: seq<byte>, at: nat, bs: seq<byte>): (r: seq<byte>)
    ensures |r| == |buf|
    ensures forall i :: 0 <= i < |buf| && at <= i < at + |bs| ==> r[i] == bs[i - at]
    ensures forall i :: 0 <= i < |buf| && !(at <= i < at + |bs|) ==> r[i] == buf[i]
  {
    seq(|buf|, i requires 0 <= i < |buf| => if at <= i < at + |bs| then bs[i - at] else buf[i])
  }

  /** Two consecutive runs of stores are one run of their concatenation. */
  lemma {:induction false} OverlayAppend(buf: seq<byte>, at: nat, a: seq<byte>, b: seq<byte>)
    ensures Overlay(Overlay(buf, at, a), at + |a|, b) == Overlay(buf, at, a + b)
  {
  }

  /** bs lies in buf from index at on, byte by byte. */
  predicate StoredAt(buf: seq<byte>, at: nat, bs: seq<byte>)
    decreases |bs|
  {
    at + |bs| <= |buf| && (bs == [] || (buf[at] == bs[0] && StoredAt(buf, at + 1, bs[1..])))
  }

  /** `StoredAt` is slice equality. */
  lemma {:induction false} StoredSlice(buf: seq<byte>, at: nat, bs: seq<byte>)
    requires at + |bs| <= |buf|
    ensures StoredAt(buf, at, bs) <==> buf[at..at + |bs|] == bs
    decreases |bs|
  {
    if bs != [] {
      StoredSlice(buf, at + 1, bs[1..]);
      assert buf[at..at + |bs|] == [buf[at]] + buf[at + 1..at + |bs|];
    }
  }

  /** A stored concatenation holds each part at its place. */
  lemma {:induction false} StoredSplit(buf: seq<byte>, at: nat, head: seq<byte>, tail: seq<byte>)
    requires StoredAt(buf, at, head + tail)
    ensures StoredAt(buf, at, head) && StoredAt(buf, at + |head|, tail)
    decreases |head|
  {
    if head != [] {
      assert (head + tail)[0] == head[0] && (head + tail)[1..] == head[1..] + tail;
      StoredSplit(buf, at + 1, head[1..], tail);
    } else {
      assert head + tail == tail;
    }
  }

  /** When the bytes fit, they can be read back from where they were stored. */
  lemma {:induction false} OverlayStored(buf: seq<byte>, at: nat, bs: seq<byte>)
    requires at + |bs| <= |buf|
    ensures StoredAt(Overlay(buf, at, bs), at, bs)
  {
    var r := Overlay(buf, at, bs);
    assert r[at..at + |bs|] == bs;
    StoredSlice(r, at, bs);
  }

  /** Stores that cover the whole buffer replace it. */
  lemma {:induction false} OverlayWhole(buf: seq<byte>, bs: seq<byte>)
    requires |bs| == |buf|
    ensures Overlay(buf, 0, bs) == bs
  {
  }

  /** n zero bytes, as `Buffer.alloc(n)` holds them. */
  function Zeros(n: nat): (r: seq<byte>)
    ensures |r| == n && forall i :: 0 <= i < n ==> r[i] == 0
  {
    seq(n, _ => 0)
  }

  /** The bytes `buffer.subarray(s, e)` (or `buffer.toString(enc, s, e)`)
      sees: the range s .. e clipped to the buffer. */
  function Subarray(buf: seq<byte>, s: nat, e: nat): (r: seq<byte>)
    requires s <= e
    ensures |r| <= e - s
    ensures e <= |buf| ==> r == buf[s..e]
  {
    if s >= |buf| then [] else if e <= |buf| then buf[s..e] else buf[s..]
  }

  /** Unsigned byte-wise order of `Buffer.compare(a, b) < 0`: the first
      differing byte decides, and a proper prefix sorts first. */
  predicate LexLess(a: seq<byte>, b: seq<byte>)
  {
    if a == [] then b != []
    else if b == [] then false
    else a[0] < b[0] || (a[0] == b[0] && LexLess(a[1..], b[1..]))
  }

  lemma {:induction false} LexLessIrreflexive(a: seq<byte>)
    ensures !LexLess(a, a)
  {
    if a != [] {
      LexLessIrreflexive(a[1..]);
    }
  }

  /** a and b differ at index k after an equal common part. */
  predicate DiffersAt(a: seq<byte>, b: seq<byte>, k: nat)
  {
    k < |a| && k < |b| && a[..k] == b[..k] && a[k] < b[k]
  }

  /** Two sequences whose first difference favours b are ordered. */
  lemma {:induction false} LexLessAt(a: seq<byte>, b: seq<byte>, k: nat)
    requires DiffersAt(a, b, k)
    ensures LexLess(a, b)
  {
    if k > 0 {
      assert a[0] == a[..k][0] == b[..k][0] == b[0];
      assert a[1..][..k - 1] == a[..k][1..] == b[..k][1..] == b[1..][..k - 1];
      LexLessAt(a[1..], b[1..], k - 1);
    }
  }

  /** Conversely, order between sequences that are not prefixes of one
      another is decided at a differing index. */
  lemma {:induction false} LexLessWitness(a: seq<byte>, b: seq<byte>)
    requires LexLess(a, b)
    requires |a| <= |b| ==> a != b[..|a|]
    ensures exists k :: DiffersAt(a, b, k)
  {
    assert a != [] && b != [];
    if a[0] < b[0] {
      assert a[..0] == b[..0];
      assert DiffersAt(a, b, 0);
    } else {
      assert |a[1..]| <= |b[1..]| ==> a[1..] != b[1..][..|a[1..]|] by {
        if |a[1..]| <= |b[1..]| {
          assert a == [a[0]] + a[1..];
          assert b[..|a|] == [b[0]] + b[1..][..|a[1..]|];
        }
      }
      LexLessWitness(a[1..], b[1..]);
      var k: nat :| DiffersAt(a[1..], b[1..], k);
      assert a[..k + 1] == [a[0]] + a[1..][..k] == [b[0]] + b[1..][..k] == b[..k + 1];
      assert DiffersAt(a, b, k + 1);
    }
  }

  /** Big-endian bytes of equal width sort like the numbers they hold. */
  lemma {:induction false} BEOrder(x: nat, y: nat, k: nat)
    requires x < y < Pow256(k)
    ensures LexLess(BE(x, k), BE(y, k))
  {
    var k' := k - 1;
    if x / 256 == y / 256 {
      assert x % 256 < y % 256;
      assert BE(x, k)[..k'] == BE(x / 256, k') == BE(y / 256, k') == BE(y, k)[..k'];
      LexLessAt(BE(x, k), BE(y, k), k');
    } else {
      assert x / 256 < y / 256 < Pow256(k') by {
        assert y < 256 * Pow256(k');
      }
      BEOrder(x / 256, y / 256, k');
      PrefixOrder(BE(x / 256, k'), BE(y / 256, k'), [(x % 256) as byte], [(y % 256) as byte]);
    }
  }

  /** Appending to two sequences of equal length keeps their order. */
  lemma {:induction false} PrefixOrder(a: seq<byte>, b: seq<byte>, c: seq<byte>, d: seq<byte>)
    requires |a| == |b| && LexLess(a, b)
    ensures LexLess(a + c, b + d)
  {
    LexLessIrreflexive(a);
    assert b[..|a|] == b;
    LexLessWitness(a, b);
    var k: nat :| DiffersAt(a, b, k);
    assert (a + c)[..k] == a[..k] && (b + d)[..k] == b[..k];
    assert DiffersAt(a + c, b + d, k);
    LexLessAt(a + c, b + d, k);
  }

  /** `b ^ 0xff` on a byte. */
  function Flip(b: byte): (r: byte)
    ensures r as int + b as int == 255
  {
    255 - b
  }

  /** Every byte of s XORed with 0xff. */
  function Invert(s: seq<byte>): (r: seq<byte>)
    ensures |r| == |s| && forall i :: 0 <= i < |s| ==> r[i] == Flip(s[i])
  {
    seq(|s|, i requires 0 <= i < |s| => Flip(s[i]))
  }

  /** Inversion reverses the order of sequences neither of which is a
      prefix of the other. */
  lemma {:induction false} InvertReversesOrder(a: seq<byte>, b: seq<byte>)
    requires LexLess(a, b)
    requires |a| <= |b| ==> a != b[..|a|]
    ensures LexLess(Invert(b), Invert(a))
  {
    LexLessWitness(a, b);
    var k: nat :| DiffersAt(a, b, k);
    assert Invert(b)[..k] == Invert(b[..k]) == Invert(a[..k]) == Invert(a)[..k];
    assert DiffersAt(Invert(b), Invert(a), k);
    LexLessAt(Invert(b), Invert(a), k);
  }
}
