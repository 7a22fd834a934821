/** The Internet checksum of RFC 1071, as both CLDP programs compute it, and the
    header field of section 3.1 of RFC 791 it fills. */
module Checksum {

  type Word = w: int | 0 <= w < 0x1_0000
  type Byte = b: int | 0 <= b < 0x100

  const TWO64 := 0x1_0000_0000_0000_0000
  const INT_MAX := 0x7fff_ffff

  function Sum(ws: seq<Word>): nat {
    if ws == [] then 0 else Sum(ws[..|ws| - 1]) + ws[|ws| - 1]
  }

  /** Adding the carries back until the sum fits in 16 bits. */
  function Fold(sum: nat): (r: Word)
    ensures r % 0xffff == sum % 0xffff
    ensures r == 0 <==> sum == 0
  {
    if sum < 0x1_0000 then sum else FoldOnce(sum); Fold(sum % 0x1_0000 + sum / 0x1_0000)
  }

  lemma {:induction false} FoldOnce(sum: nat)
    ensures (sum % 0x1_0000 + sum / 0x1_0000) % 0xffff == sum % 0xffff
  {
  }

  lemma {:induction false} ModPlusMultiple(a: int, k: nat)
    ensures (a + 0xffff * k) % 0xffff == a % 0xffff
  {
  }

  function Sum16(ws: seq<Word>): Word { 0xffff - Fold(Sum(ws)) }

  lemma {:induction false} SumBound(ws: seq<Word>)
    ensures Sum(ws) <= 0xffff * |ws|
  {
    if ws != [] { SumBound(ws[..|ws| - 1]); }
  }

  /** The accumulate-and-fold loops, on an `unsigned long` of 64 bits and a word
      count of type `int`. */
  method Compute(buf: seq<Word>) returns (r: Word)
    requires |buf| <= INT_MAX
    ensures r == Sum16(buf)
  {
    var sum := 0;
    var i := 0;
    while i < |buf|
      invariant 0 <= i <= |buf| && sum == Sum(buf[..i])
    {
      SumBound(buf[..i]);
      assert buf[..i + 1][..i] == buf[..i];
      sum := (sum + buf[i]) % TWO64;
      i := i + 1;
    }
    assert buf[..i] == buf;
    while sum / 0x1_0000 != 0
      invariant sum >= 0 && Fold(sum) == Fold(Sum(buf))
      decreases sum
    {
      sum := sum % 0x1_0000 + sum / 0x1_0000;
    }
    r := 0xffff - sum;
  }

  /** The folded sum is pinned down by its residue and by whether it is zero. */
  lemma {:induction false} FoldUnique(sum: nat, r: Word)
    requires r % 0xffff == sum % 0xffff && (r == 0 <==> sum == 0)
    ensures Fold(sum) == r
  {
  }

  // ---------- the checksum verifies ----------

  lemma {:induction false} SumUpdate(ws: seq<Word>, p: nat, v: Word)
    requires p < |ws|
    ensures Sum(ws[p := v]) == Sum(ws) - ws[p] + v
  {
    var n := |ws| - 1;
    if p < n {
      SumUpdate(ws[..n], p, v);
      assert ws[p := v][..n] == ws[..n][p := v];
    } else {
      assert ws[p := v][..n] == ws[..n];
    }
  }

  lemma {:induction false} ModOfSum(a: int, b: int, c: int)
    requires a % 0xffff == b % 0xffff
    ensures (a + c) % 0xffff == (b + c) % 0xffff
  {
  }

  /** With the field zeroed, the value stored there makes the whole header sum
      to checksum 0 exactly when it is the computed checksum, or is 0xffff where
      0 was computed. */
  lemma {:induction false} VerifiesExactly(ws: seq<Word>, p: nat, v: Word)
    requires p < |ws| && ws[p] == 0
    ensures Sum16(ws[p := v]) == 0 <==> v == Sum16(ws) || (v == 0xffff && Sum16(ws) == 0)
  {
    SumUpdate(ws, p, v);
    FoldComplete(Sum(ws), v);
  }

  lemma {:induction false} FoldComplete(s: nat, v: Word)
    ensures Fold(s + v) == 0xffff <==> Fold(s) + v == 0xffff || (v == 0xffff == Fold(s))
  {
    var f, t := Fold(s), Fold(s + v);
    ModOfSum(s, f, v);
    TopResidue(t, s + v);
    TopResidue(t, f + v);
    ZeroResidue(f + v);
  }

  lemma {:induction false} TopResidue(r: Word, sum: int)
    requires r % 0xffff == sum % 0xffff && (r == 0 <==> sum == 0)
    ensures r == 0xffff <==> sum != 0 && sum % 0xffff == 0
  {
  }

  lemma {:induction false} ZeroResidue(n: nat)
    requires n <= 0xffff + 0xffff
    ensures n % 0xffff == 0 <==> n == 0 || n == 0xffff || n == 0xffff + 0xffff
  {
  }

  /** In particular a header carrying its own checksum passes. */
  lemma {:induction false} OwnChecksumVerifies(ws: seq<Word>, p: nat)
    requires p < |ws| && ws[p] == 0
    ensures Sum16(ws[p := Sum16(ws)]) == 0
  {
    VerifiesExactly(ws, p, Sum16(ws));
  }

  // ---------- byte-order independence ----------

  function Swap(w: Word): Word { w % 0x100 * 0x100 + w / 0x100 }

  function SwapAll(ws: seq<Word>): (r: seq<Word>) {
    seq(|ws|, i requires 0 <= i < |ws| => Swap(ws[i]))
  }

  lemma {:induction false} SwapMod(w: Word)
    ensures Swap(w) == 0x100 * w - 0xffff * (w / 0x100)
    ensures Swap(0xffff - w) == 0xffff - Swap(w)
    ensures Swap(w) == 0 <==> w == 0
  {
  }

  /** Swapping every word multiplies the sum by 256, up to multiples of 0xffff. */
  lemma {:induction false} SumSwapped(ws: seq<Word>) returns (k: nat)
    ensures Sum(SwapAll(ws)) + 0xffff * k == 0x100 * Sum(ws)
    ensures Sum(SwapAll(ws)) == 0 <==> Sum(ws) == 0
  {
    if ws == [] {
      k := 0;
    } else {
      var n := |ws| - 1;
      var k' := SumSwapped(ws[..n]);
      SwapMod(ws[n]);
      assert SwapAll(ws)[..n] == SwapAll(ws[..n]);
      k := k' + ws[n] / 0x100;
    }
  }

  lemma {:induction false} ModTimes(a: int, b: int, k: nat)
    requires a % 0xffff == b % 0xffff
    ensures (a * k) % 0xffff == (b * k) % 0xffff
  {
    if k > 0 {
      ModTimes(a, b, k - 1);
      assert a * k == a * (k - 1) + a && b * k == b * (k - 1) + b;
      ModOfSum(a * (k - 1), b * (k - 1), a);
      ModOfSum(a, b, b * (k - 1));
    }
  }

  /** The checksum of byte-swapped words is the byte-swapped checksum (section
      2(B) of RFC 1071). */
  lemma {:induction false} ByteOrderIndependent(ws: seq<Word>)
    ensures Sum16(SwapAll(ws)) == Swap(Sum16(ws))
  {
    var s, t := Sum(ws), Sum(SwapAll(ws));
    var k := SumSwapped(ws);
    ModPlusMultiple(t, k);
    var f := Fold(s);
    ModTimes(s, f, 0x100);
    SwapMod(f);
    ModPlusMultiple(Swap(f), f / 0x100);
    FoldUnique(t, Swap(f));
  }

  // ---------- over the bytes of a header ----------

  datatype Endian = Little | Big

  function WordAt(e: Endian, first: Byte, second: Byte): Word {
    if e.Little? then first + second * 0x100 else first * 0x100 + second
  }

  /** A byte buffer seen as 16-bit words by a host of either kind. */
  function Words(e: Endian, bs: seq<Byte>): (ws: seq<Word>)
    requires |bs| % 2 == 0
    ensures |ws| == |bs| / 2
  {
    seq(|bs| / 2, i requires 0 <= i < |bs| / 2 => WordAt(e, bs[2 * i], bs[2 * i + 1]))
  }

  /** The two bytes a host stores for a word. */
  function StoreWord(e: Endian, bs: seq<Byte>, p: nat, w: Word): (r: seq<Byte>)
    requires 2 * p + 1 < |bs|
    ensures |r| == |bs|
  {
    if e.Little? then bs[2 * p := w % 0x100][2 * p + 1 := w / 0x100]
    else bs[2 * p := w / 0x100][2 * p + 1 := w % 0x100]
  }

  lemma {:induction false} WordsSwap(bs: seq<Byte>)
    requires |bs| % 2 == 0
    ensures Words(Big, bs) == SwapAll(Words(Little, bs))
  {
  }

  lemma {:induction false} WordsStore(e: Endian, bs: seq<Byte>, p: nat, w: Word)
    requires |bs| % 2 == 0 && 2 * p + 1 < |bs|
    ensures Words(e, StoreWord(e, bs, p, w)) == Words(e, bs)[p := w]
  {
  }

  /** A host of either kind that computes in its own order and stores in its own
      order writes the same two bytes, and either kind of host accepts them. */
  lemma {:induction false} HostOrderIsNetworkOrder(e: Endian, reader: Endian, header: seq<Byte>, p: nat)
    requires |header| % 2 == 0 && 2 * p + 1 < |header|
    requires header[2 * p] == 0 && header[2 * p + 1] == 0
    ensures var sealed := StoreWord(e, header, p, Sum16(Words(e, header)));
      && sealed == StoreWord(Big, header, p, Sum16(Words(Big, header)))
      && Sum16(Words(reader, sealed)) == 0
  {
    WordsSwap(header);
    ByteOrderIndependent(Words(Little, header));
    var sealed := StoreWord(e, header, p, Sum16(Words(e, header)));
    var c := Sum16(Words(Little, header));
    assert Swap(c) / 0x100 == c % 0x100 && Swap(c) % 0x100 == c / 0x100;
    assert sealed == StoreWord(Big, header, p, Sum16(Words(Big, header)));
    assert sealed == StoreWord(reader, header, p, Sum16(Words(reader, header)));
    WordsStore(reader, header, p, Sum16(Words(reader, header)));
    OwnChecksumVerifies(Words(reader, header), p);
  }
}
