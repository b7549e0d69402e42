/** Bytes, fixed-width big-endian integers, and the two range checks the
    assembler relies on: Python's `int.to_bytes(w, "big")` (unsigned) and the
    signed `h`/`i` fields of `struct.pack(">hi", ...)`. */
module BigEndian {

  datatype Option<T> = None | Some(value: T)

  type Byte = b: int | 0 <= b < 256

  /** The number of distinct values a w-byte field can hold. */
  function Pow256(w: nat): (r: nat)
    ensures r >= 1
    ensures w >= 1 ==> r >= 256 && r % 2 == 0
  {
    if w == 0 then 1 else 256 * Pow256(w - 1)
  }

  /** The unsigned big-endian value of a byte string. */
  function FromBE(bs: seq<Byte>): (r: nat)
    ensures r < Pow256(|bs|)
  {
    if |bs| == 0 then 0 else FromBE(bs[..|bs| - 1]) * 256 + bs[|bs| - 1]
  }

  /** n written as exactly w big-endian bytes. */
  function BE(n: nat, w: nat): (r: seq<Byte>)
    requires n < Pow256(w)
    ensures |r| == w
    ensures FromBE(r) == n
  {
    if w == 0 then []
    else
      assert n / 256 < Pow256(w - 1);
      var high := BE(n / 256, w - 1);
      assert (high + [n % 256])[..w - 1] == high;
      high + [n % 256]
  }

  lemma Pow256Widths()
    ensures Pow256(1) == 0x100 && Pow256(2) == 0x1_0000 && Pow256(4) == 0x1_0000_0000
  {
    assert Pow256(2) == 256 * Pow256(1);
    assert Pow256(4) == 256 * 256 * Pow256(2);
  }

  /** A 16-bit big-endian field, written out. */
  function BE2(n: nat): (r: seq<Byte>)
    requires n < 0x1_0000
    ensures n < Pow256(2) && r == BE(n, 2)
  {
    Pow256Widths();
    assert BE(n, 2) == BE(n / 256, 1) + [n % 256];
    assert BE(n / 256, 1) == BE(n / 256 / 256, 0) + [n / 256 % 256];
    [n / 256, n % 256]
  }

  /** A value below 256 is written as a zero byte and itself. */
  lemma BE2Byte(n: nat)
    requires n < 0x100
    ensures BE2(n) == [0, n]
  {
  }

  /** BE is also onto: every w-byte string is the encoding of its own value. */
  lemma {:induction false} BEOfFromBE(bs: seq<Byte>)
    ensures BE(FromBE(bs), |bs|) == bs
  {
    if |bs| > 0 {
      var init := bs[..|bs| - 1];
      var v := FromBE(bs);
      assert v / 256 == FromBE(init) && v % 256 == bs[|bs| - 1];
      BEOfFromBE(init);
      assert bs == init + [bs[|bs| - 1]];
    }
  }

  /** Python's `v.to_bytes(w, "big")`: an OverflowError (None here) unless
      0 <= v < 256^w. */
  function ToBytes(v: int, w: nat): (r: Option<seq<Byte>>)
    ensures r.Some? <==> 0 <= v < Pow256(w)
    ensures r.Some? ==> |r.value| == w && FromBE(r.value) == v
  {
    if 0 <= v < Pow256(w) then Some(BE(v, w)) else None
  }

  /** A signed big-endian `struct.pack` field of w bytes, for the non-negative
      values the assembler packs: `struct.error` (None here) unless the value
      fits below 2^(8w-1); the encoding then has its sign bit clear. */
  function PackSigned(v: nat, w: nat): (r: Option<seq<Byte>>)
    requires w >= 1
    ensures r.Some? <==> v < Pow256(w) / 2
    ensures r.Some? ==> |r.value| == w && FromBE(r.value) == v && r.value[0] < 128
  {
    if v < Pow256(w) / 2 then
      var bs := BE(v, w);
      SignBitClear(bs);
      Some(bs)
    else None
  }

  /** A big-endian value below half the range has its top bit clear. */
  lemma {:induction false} SignBitClear(bs: seq<Byte>)
    requires |bs| >= 1 && FromBE(bs) < Pow256(|bs|) / 2
    ensures bs[0] < 128
  {
    if |bs| > 1 {
      var init := bs[..|bs| - 1];
      assert FromBE(init) * 256 <= FromBE(bs);
      assert Pow256(|bs|) / 2 == Pow256(|init|) / 2 * 256;
      SignBitClear(init);
    }
  }
}
