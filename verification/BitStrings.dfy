/** Bit strings as an encoder writes them, and where they stand in a byte stream. */
module BitStrings {
  import opened Bits

  /** The stream has these bits at `pos`. */
  ghost predicate At(data: seq<byte>, pos: nat, bits: seq<nat>)
  {
    forall i :: 0 <= i < |bits| ==> StreamBit(data, pos + i) == bits[i]
  }

  lemma AtConcat(data: seq<byte>, pos: nat, a: seq<nat>, b: seq<nat>)
    ensures At(data, pos, a + b) <==> At(data, pos, a) && At(data, pos + |a|, b)
  {
    if At(data, pos, a + b) {
      forall i | 0 <= i < |a| ensures StreamBit(data, pos + i) == a[i] {
        assert (a + b)[i] == a[i];
      }
      forall i | 0 <= i < |b| ensures StreamBit(data, pos + |a| + i) == b[i] {
        assert (a + b)[|a| + i] == b[i];
        assert pos + (|a| + i) == pos + |a| + i;
      }
    }
    if At(data, pos, a) && At(data, pos + |a|, b) {
      forall i | 0 <= i < |a + b| ensures StreamBit(data, pos + i) == (a + b)[i] {
        if i >= |a| {
          assert StreamBit(data, pos + |a| + (i - |a|)) == b[i - |a|];
        }
      }
    }
  }

  /** `v` in `n` bits, least significant first. */
  function Lsb(v: nat, n: nat): (bits: seq<nat>)
    ensures |bits| == n
    decreases n
  {
    if n == 0 then [] else [v % 2] + Lsb(v / 2, n - 1)
  }

  /** `c` in `n` bits, most significant first. */
  function Msb(c: nat, n: nat): (bits: seq<nat>)
    ensures |bits| == n
  {
    if n == 0 then [] else Msb(c / 2, n - 1) + [c % 2]
  }

  lemma {:induction false} LsbAt(data: seq<byte>, pos: nat, v: nat, n: nat)
    requires v < Pow2(n)
    ensures At(data, pos, Lsb(v, n)) <==> Val(data, pos, n) == v
    decreases n
  {
    if n > 0 {
      LsbAt(data, pos + 1, v / 2, n - 1);
      AtConcat(data, pos, [v % 2], Lsb(v / 2, n - 1));
      assert At(data, pos, [v % 2]) <==> StreamBit(data, pos) == v % 2 by {
        assert [v % 2][0] == v % 2;
        assert StreamBit(data, pos + 0) == StreamBit(data, pos);
      }
    }
  }

  lemma {:induction false} MsbAt(data: seq<byte>, pos: nat, c: nat, n: nat)
    requires c < Pow2(n)
    ensures At(data, pos, Msb(c, n)) <==> Code(data, pos, n) == c
  {
    if n > 0 {
      MsbAt(data, pos, c / 2, n - 1);
      AtConcat(data, pos, Msb(c / 2, n - 1), [c % 2]);
      assert At(data, pos + n - 1, [c % 2]) <==> StreamBit(data, pos + n - 1) == c % 2 by {
        assert [c % 2][0] == c % 2;
        assert StreamBit(data, pos + n - 1 + 0) == StreamBit(data, pos + n - 1);
      }
    }
  }

  // ----- bits as bytes -----

  ghost predicate Binary(bits: seq<nat>)
  {
    forall i :: 0 <= i < |bits| ==> bits[i] < 2
  }

  lemma {:induction false} LsbBinary(v: nat, n: nat)
    ensures Binary(Lsb(v, n))
    decreases n
  {
    if n > 0 { LsbBinary(v / 2, n - 1); }
  }

  /** The number with these bits, least significant first; anything but 0 counts as 1. */
  function Num(bits: seq<nat>): (v: nat)
    ensures v < Pow2(|bits|)
  {
    if bits == [] then 0 else (if bits[0] == 0 then 0 else 1) + 2 * Num(bits[1..])
  }

  lemma {:induction false} NumBit(bits: seq<nat>, i: nat)
    requires Binary(bits) && i < |bits|
    ensures BitOf(Num(bits), i) == bits[i]
    decreases i
  {
    if i > 0 { NumBit(bits[1..], i - 1); }
  }

  /** Bits packed into bytes as the streams hold them, the last byte filled up with zeros. */
  function Packed(bits: seq<nat>): seq<byte>
    decreases |bits|
  {
    if bits == [] then [] else
    var k := if |bits| < 8 then |bits| else 8;
    NumByte(bits[..k]);
    [Num(bits[..k])] + Packed(bits[k..])
  }

  lemma NumByte(bits: seq<nat>)
    requires |bits| <= 8
    ensures Num(bits) < 256
  {
    Pow2Mono(|bits|, 8);
    SmallPowers();
  }

  lemma LaterBit(b: byte, rest: seq<byte>, i: nat)
    requires i >= 8
    ensures StreamBit([b] + rest, i) == StreamBit(rest, i - 8)
  {
    assert i / 8 == (i - 8) / 8 + 1 && i % 8 == (i - 8) % 8;
  }

  /** Packed bits are found again. */
  lemma {:induction false} PackedAt(bits: seq<nat>)
    requires Binary(bits)
    ensures At(Packed(bits), 0, bits) && |bits| <= 8 * |Packed(bits)|
    decreases |bits|
  {
    hide StreamBit, Num;
    if bits != [] {
      var k := if |bits| < 8 then |bits| else 8;
      var head, rest, z := bits[..k], bits[k..], Packed(bits);
      NumByte(head);
      var b: byte := Num(head);
      assert z == [b] + Packed(rest);
      PackedAt(rest);
      forall i | 0 <= i < |bits| ensures StreamBit(z, 0 + i) == bits[i] {
        if i < k {
          NumBit(head, i);
          FirstByteBit(b, Packed(rest), i);
        } else {
          LaterBit(b, Packed(rest), i);
          assert StreamBit(Packed(rest), 0 + (i - 8)) == rest[i - 8];
        }
      }
    }
  }

  lemma FirstByteBit(b: byte, rest: seq<byte>, i: nat)
    requires i < 8
    ensures StreamBit([b] + rest, i) == BitOf(b, i)
  {}
}
