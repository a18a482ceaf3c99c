/**
 The byte and word reordering helpers of the miner header: the portable
 `bswap_16/32/64` macros, `swab32`, the `be32toh`/`htobe32` pair and
 `swap256`.

 A value's bytes are listed least significant first, which is the order in
 which a little-endian host stores them in memory.
 */
module ByteSwap {

  /** The elements of `s` in the opposite order. */
  function Reverse<T>(s: seq<T>): (r: seq<T>)
    ensures |r| == |s|
    ensures forall i :: 0 <= i < |s| ==> r[i] == s[|s| - 1 - i]
    decreases |s|
  {
    if |s| == 0 then [] else Reverse(s[1..]) + [s[0]]
  }

  lemma ReverseReverse<T>(s: seq<T>)
    ensures Reverse(Reverse(s)) == s
  {
  }

  lemma {:induction false} ReverseAppend<T>(a: seq<T>, b: seq<T>)
    ensures Reverse(a + b) == Reverse(b) + Reverse(a)
  {
    var l := Reverse(a + b);
    var r := Reverse(b) + Reverse(a);
    assert |l| == |r|;
    forall i | 0 <= i < |l|
      ensures l[i] == r[i]
    {
      if i < |b| {
        assert r[i] == b[|b| - 1 - i];
      } else {
        assert r[i] == Reverse(a)[i - |b|] == a[|a| - 1 - (i - |b|)];
      }
    }
  }

  // ---------------------------------------------------------------------
  // Byte views

  function Bytes16(v: bv16): seq<bv8>
  {
    [(v & 0xff) as bv8, (v >> 8) as bv8]
  }

  function Bytes32(v: bv32): seq<bv8>
  {
    [ (v & 0xff) as bv8, ((v >> 8) & 0xff) as bv8,
      ((v >> 16) & 0xff) as bv8, (v >> 24) as bv8 ]
  }

  /** The low and high 32-bit halves of a 64-bit value. */
  function Low(v: bv64): bv32 { (v & 0xffff_ffff) as bv32 }
  function High(v: bv64): bv32 { (v >> 32) as bv32 }

  /** The 64-bit value whose low half is `lo` and high half `hi`. */
  function Halves(lo: bv32, hi: bv32): (v: bv64)
    ensures Low(v) == lo && High(v) == hi
  {
    ((hi as bv64) << 32) | (lo as bv64)
  }

  lemma HalvesOf(v: bv64)
    ensures v == Halves(Low(v), High(v))
  {
  }

  function Bytes64(v: bv64): seq<bv8>
  {
    Bytes32(Low(v)) + Bytes32(High(v))
  }

  /** A value is determined by its bytes. */
  lemma Bytes16Injective(a: bv16, b: bv16)
    requires Bytes16(a) == Bytes16(b)
    ensures a == b
  {
    assert Bytes16(a)[0] == Bytes16(b)[0] && Bytes16(a)[1] == Bytes16(b)[1];
  }

  lemma Bytes32Injective(a: bv32, b: bv32)
    requires Bytes32(a) == Bytes32(b)
    ensures a == b
  {
    assert forall i :: 0 <= i < 4 ==> Bytes32(a)[i] == Bytes32(b)[i];
  }

  lemma Bytes64Injective(a: bv64, b: bv64)
    requires Bytes64(a) == Bytes64(b)
    ensures a == b
  {
    assert Bytes64(a)[..4] == Bytes32(Low(a)) && Bytes64(a)[4..] == Bytes32(High(a));
    assert Bytes64(b)[..4] == Bytes32(Low(b)) && Bytes64(b)[4..] == Bytes32(High(b));
    Bytes32Injective(Low(a), Low(b));
    Bytes32Injective(High(a), High(b));
    HalvesOf(a);
    HalvesOf(b);
  }

  // ---------------------------------------------------------------------
  // The fallback macros

  /** `bswap_16`: the low byte moves up, the high byte down. */
  function Bswap16(v: bv16): (r: bv16)
    ensures Bytes16(r) == Reverse(Bytes16(v))
  {
    ((v & 0xff) << 8) | (v >> 8)
  }

  /** `bswap_32`: swap the 16-bit halves and byte-swap each, which reverses
      the four bytes. */
  function Bswap32(v: bv32): (r: bv32)
    ensures Bytes32(r) == Reverse(Bytes32(v))
  {
    ((Bswap16((v & 0xffff) as bv16) as bv32) << 16) | (Bswap16((v >> 16) as bv16) as bv32)
  }

  /** `bswap_64`: swap the 32-bit halves and apply `bswap_32` to each, which
      reverses the eight bytes. */
  function Bswap64(v: bv64): (r: bv64)
    ensures Bytes64(r) == Reverse(Bytes64(v))
  {
    var lo, hi := Low(v), High(v);
    HalvesOf(v);
    ReverseAppend(Bytes32(lo), Bytes32(hi));
    assert ((Bswap32(lo) as bv64) << 32) | (Bswap32(hi) as bv64) == Halves(Bswap32(hi), Bswap32(lo));
    ((Bswap32(lo) as bv64) << 32) | (Bswap32(hi) as bv64)
  }

  lemma Bswap16Involution(v: bv16)
    ensures Bswap16(Bswap16(v)) == v
  {
    ReverseReverse(Bytes16(v));
    Bytes16Injective(Bswap16(Bswap16(v)), v);
  }

  lemma Bswap32Involution(v: bv32)
    ensures Bswap32(Bswap32(v)) == v
  {
    ReverseReverse(Bytes32(v));
    Bytes32Injective(Bswap32(Bswap32(v)), v);
  }

  lemma Bswap64Involution(v: bv64)
    ensures Bswap64(Bswap64(v)) == v
  {
    ReverseReverse(Bytes64(v));
    Bytes64Injective(Bswap64(Bswap64(v)), v);
  }

  /** `swab32`: the 32-bit byte swap under its other name. */
  function Swab32(v: bv32): (r: bv32)
    ensures Bytes32(r) == Reverse(Bytes32(v))
  {
    Bswap32(v)
  }

  // ---------------------------------------------------------------------
  // Host and big-endian order

  /** The byte order of the host the header is compiled for. */
  datatype ByteOrder = LittleEndian | BigEndian

  /** The bytes of `v` as the host stores them, lowest address first. */
  function HostBytes32(order: ByteOrder, v: bv32): seq<bv8>
  {
    match order
    case LittleEndian => Bytes32(v)
    case BigEndian => Reverse(Bytes32(v))
  }

  /** The bytes of `v` in big-endian (network) order. */
  function BigEndianBytes32(v: bv32): seq<bv8>
  {
    Reverse(Bytes32(v))
  }

  /** `htobe32`: the value whose stored bytes are `x` in big-endian order
      (`bswap_32` on a little-endian host, nothing on a big-endian one). */
  function Htobe32(order: ByteOrder, x: bv32): (r: bv32)
    ensures HostBytes32(order, r) == BigEndianBytes32(x)
  {
    match order
    case LittleEndian => Bswap32(x)
    case BigEndian => x
  }

  /** `be32toh`: the value of the stored bytes of `x` read in big-endian order. */
  function Be32toh(order: ByteOrder, x: bv32): (r: bv32)
    ensures BigEndianBytes32(r) == HostBytes32(order, x)
  {
    match order
    case LittleEndian =>
      ReverseReverse(Bytes32(x));
      Bswap32(x)
    case BigEndian => x
  }

  /** The two conversions undo each other on either host. */
  lemma Be32RoundTrip(order: ByteOrder, x: bv32)
    ensures Be32toh(order, Htobe32(order, x)) == x
    ensures Htobe32(order, Be32toh(order, x)) == x
  {
    if order == LittleEndian {
      Bswap32Involution(x);
    }
  }

  // ---------------------------------------------------------------------
  // swap256

  /** `swap256(dest, src)` for distinct buffers: the eight 32-bit words in
      the opposite order, each word's bytes untouched. */
  function Swap256(src: seq<bv32>): (dest: seq<bv32>)
    requires |src| == 8
    ensures |dest| == 8
    ensures forall i :: 0 <= i < 8 ==> dest[i] == src[7 - i]
  {
    [src[7], src[6], src[5], src[4], src[3], src[2], src[1], src[0]]
  }

  /** So `swap256` is word-order reversal. */
  lemma Swap256IsReverse(src: seq<bv32>)
    requires |src| == 8
    ensures Swap256(src) == Reverse(src)
  {
  }

  lemma Swap256Involution(src: seq<bv32>)
    requires |src| == 8
    ensures Swap256(Swap256(src)) == src
  {
    var d := Swap256(Swap256(src));
    assert forall i :: 0 <= i < 8 ==> d[i] == src[i];
  }

  /** The eight stores of `swap256` in order when `dest` and `src` are the
      same buffer: each store can read a word that an earlier one overwrote. */
  function Swap256InPlace(buf: seq<bv32>): seq<bv32>
    requires |buf| == 8
  {
    var b0 := buf[0 := buf[7]];
    var b1 := b0[1 := b0[6]];
    var b2 := b1[2 := b1[5]];
    var b3 := b2[3 := b2[4]];
    var b4 := b3[4 := b3[3]];
    var b5 := b4[5 := b4[2]];
    var b6 := b5[6 := b5[1]];
    b6[7 := b6[0]]
  }

  /** In place, the first four stores reverse the first half correctly but
      the last four copy it back, so the second half mirrors the first. */
  lemma Swap256InPlaceResult(buf: seq<bv32>)
    requires |buf| == 8
    ensures Swap256InPlace(buf) == [buf[7], buf[6], buf[5], buf[4], buf[4], buf[5], buf[6], buf[7]]
  {
    var r := Swap256InPlace(buf);
    var e := [buf[7], buf[6], buf[5], buf[4], buf[4], buf[5], buf[6], buf[7]];
    assert r[0] == e[0] && r[1] == e[1] && r[2] == e[2] && r[3] == e[3];
    assert r[4] == e[4] && r[5] == e[5] && r[6] == e[6] && r[7] == e[7];
  }

  /** So `swap256` with `dest == src` is right exactly for a buffer that
      reads the same in both word orders, the buffers `swap256` leaves
      unchanged. */
  lemma Swap256Aliasing(buf: seq<bv32>)
    requires |buf| == 8
    ensures Swap256InPlace(buf) == Swap256(buf) <==> Swap256(buf) == buf
  {
    Swap256InPlaceResult(buf);
    var r := Swap256InPlace(buf);
    var d := Swap256(buf);
    var mirrored := buf[0] == buf[7] && buf[1] == buf[6] && buf[2] == buf[5] && buf[3] == buf[4];
    if r == d {
      assert r[4] == d[4] && r[5] == d[5] && r[6] == d[6] && r[7] == d[7];
      assert mirrored;
    }
    if d == buf {
      assert d[0] == buf[0] && d[1] == buf[1] && d[2] == buf[2] && d[3] == buf[3];
      assert mirrored;
    }
    if mirrored {
      assert forall i :: 0 <= i < 8 ==> r[i] == d[i] && d[i] == buf[i];
    }
  }

  // ---------------------------------------------------------------------
  // Words and their bytes

  /** `f` applied to every element, in order. */
  function Map<T, U>(f: T -> U, s: seq<T>): (r: seq<U>)
    ensures |r| == |s|
    ensures forall i :: 0 <= i < |s| ==> r[i] == f(s[i])
  {
    seq(|s|, i requires 0 <= i < |s| => f(s[i]))
  }

  lemma MapAppend<T, U>(f: T -> U, a: seq<T>, b: seq<T>)
    ensures Map(f, a + b) == Map(f, a) + Map(f, b)
  {
    var l := Map(f, a + b);
    var r := Map(f, a) + Map(f, b);
    assert |l| == |r|;
    forall i | 0 <= i < |l|
      ensures l[i] == r[i]
    {
      if i < |a| {
        assert (a + b)[i] == a[i];
      } else {
        assert (a + b)[i] == b[i - |a|];
      }
    }
  }

  /** The pieces `f` gives for the elements, laid end to end. */
  function Flatten<T, B>(f: T -> seq<B>, ws: seq<T>): seq<B>
    decreases |ws|
  {
    if |ws| == 0 then [] else f(ws[0]) + Flatten(f, ws[1..])
  }

  lemma {:induction false} FlattenAppend<T, B>(f: T -> seq<B>, a: seq<T>, b: seq<T>)
    ensures Flatten(f, a + b) == Flatten(f, a) + Flatten(f, b)
    decreases |a|
  {
    if |a| == 0 {
      assert a + b == b;
    } else {
      assert (a + b)[0] == a[0];
      assert (a + b)[1..] == a[1..] + b;
      FlattenAppend(f, a[1..], b);
    }
  }

  /** When `g` reverses the piece of every element, reversing the elements
      and applying `g` to each reverses the whole. */
  lemma {:induction false} ReverseFlatten<T, B>(f: T -> seq<B>, g: T -> T, ws: seq<T>)
    requires forall x :: f(g(x)) == Reverse(f(x))
    ensures Flatten(f, Map(g, Reverse(ws))) == Reverse(Flatten(f, ws))
    decreases |ws|
  {
    if |ws| > 0 {
      var w := ws[0];
      var rest := ws[1..];
      assert ws == [w] + rest;
      assert Reverse(ws) == Reverse(rest) + [w] by {
        ReverseAppend([w], rest);
      }
      assert Map(g, Reverse(ws)) == Map(g, Reverse(rest)) + [g(w)] by {
        MapAppend(g, Reverse(rest), [w]);
      }
      assert Flatten(f, [g(w)]) == f(g(w)) + Flatten(f, []);
      FlattenAppend(f, Map(g, Reverse(rest)), [g(w)]);
      ReverseFlatten(f, g, rest);
      ReverseAppend(f(w), Flatten(f, rest));
    }
  }

  /** The bytes of a sequence of words as a little-endian host stores them. */
  function WordsBytes(ws: seq<bv32>): seq<bv8>
  {
    Flatten(Bytes32, ws)
  }

  /** `swab32` applied to every word. */
  function SwabWords(ws: seq<bv32>): seq<bv32>
  {
    Map(Swab32, ws)
  }

  /** Reversing the word order and byte-swapping every word reverses all the
      bytes. */
  lemma ReverseWordsAndBytes(ws: seq<bv32>)
    ensures WordsBytes(SwabWords(Reverse(ws))) == Reverse(WordsBytes(ws))
  {
    forall x: bv32
      ensures Bytes32(Swab32(x)) == Reverse(Bytes32(x))
    {
    }
    ReverseFlatten(Bytes32, Swab32, ws);
  }

  /** On a little-endian host, `swap256` followed by `swab32` on each word
      reverses the 32 bytes of a 256-bit value. */
  lemma Swap256SwabReversesBytes(src: seq<bv32>)
    requires |src| == 8
    ensures WordsBytes(SwabWords(Swap256(src))) == Reverse(WordsBytes(src))
  {
    Swap256IsReverse(src);
    ReverseWordsAndBytes(src);
  }
}
