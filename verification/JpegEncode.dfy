/** Baseline blocks from the encoder's side (section F.1.2 of ITU-T T.81): coefficients in zigzag
    order become codes and extra bits, and come back. */
module JpegEncode {
  import opened Bits
  import opened BitStrings
  import opened Canonical
  import opened JpegHuffman
  import opened JpegBits
  import opened JpegBlock

  // ----- bits -----

  ghost predicate Written(ent: seq<byte>, pos: nat, bits: seq<nat>)
  {
    forall i :: 0 <= i < |bits| ==> MsbBit(ent, pos + i) == bits[i]
  }

  lemma WrittenParts(ent: seq<byte>, pos: nat, a: seq<nat>, b: seq<nat>)
    requires Written(ent, pos, a + b)
    ensures Written(ent, pos, a) && Written(ent, pos + |a|, b)
  {
    hide MsbBit;
    forall i | 0 <= i < |a| ensures MsbBit(ent, pos + i) == a[i] { assert (a + b)[i] == a[i]; }
    forall i | 0 <= i < |b| ensures MsbBit(ent, pos + |a| + i) == b[i] {
      assert (a + b)[|a| + i] == b[i];
      assert pos + (|a| + i) == pos + |a| + i;
    }
  }

  lemma {:induction false} MsbRead(ent: seq<byte>, pos: nat, v: nat, n: nat)
    requires v < Pow2(n) && Written(ent, pos, Msb(v, n))
    ensures Top(ent, pos, n) == v
  {
    hide MsbBit;
    if n > 0 {
      WrittenParts(ent, pos, Msb(v / 2, n - 1), [v % 2]);
      MsbRead(ent, pos, v / 2, n - 1);
      assert [v % 2][0] == v % 2;
      assert MsbBit(ent, pos + (n - 1) + 0) == v % 2;
    }
  }

  /** A symbol's code word is read as that symbol. */
  lemma CodeRead(ent: seq<byte>, pos: nat, lens: seq<nat>, id: nat)
    requires Fits(lens) && Used(lens, id) && Written(ent, pos, Msb(CodeOf(lens, id), lens[id]))
    ensures Wanted(lens, Top(ent, pos, 16)) == Some(Symbol(id, lens[id]))
  {
    hide Top, CodeOf, FirstCode, Shr, Msb, Written, Pow2;
    var s := lens[id];
    CodeInInterval(lens, id);
    assert EndCode(lens, s) <= Pow2(s);
    MsbRead(ent, pos, CodeOf(lens, id), s);
    TopPrefix(ent, pos, s, 16);
    LookupIs(lens, Top(ent, pos, 16), id);
  }

  // ----- values -----

  /** Number of bits of a magnitude. */
  function BitSize(v: nat): nat
  {
    if v == 0 then 0 else 1 + BitSize(v / 2)
  }

  lemma {:induction false} BitSizeBounds(v: nat)
    ensures v < Pow2(BitSize(v)) && (v > 0 ==> Pow2(BitSize(v) - 1) <= v)
  {
    if v > 0 { BitSizeBounds(v / 2); }
  }

  lemma BitSizeSmall(v: nat)
    requires v <= SHRT_MAX
    ensures BitSize(v) <= 15
  {
    BitSizeBounds(v);
    SmallPowers();
    if BitSize(v) > 15 { Pow2Mono(15, BitSize(v) - 1); }
  }

  function Magnitude(v: int): nat
  {
    if v < 0 then -v else v
  }

  function Size(v: int): nat
  {
    BitSize(Magnitude(v))
  }

  /** The extra bits that tell a value of its size apart. */
  function Extra(v: int): (e: nat)
    ensures e < Pow2(Size(v))
  {
    BitSizeBounds(Magnitude(v));
    if v >= 0 then v else v + Pow2(Size(v)) - 1
  }

  lemma ExtendExtra(v: int)
    ensures Extend(Extra(v), Size(v)) == v
  {
    hide Pow2;
    BitSizeBounds(Magnitude(v));
    if v != 0 { PowerHalf(Size(v)); }
  }

  lemma PowerHalf(n: nat)
    requires n > 0
    ensures Pow2(n) == 2 * Pow2(n - 1)
  {}

  // ----- AC coefficients -----

  /** A code of the table that stands for `rs`. */
  ghost predicate Has(lens: seq<nat>, values: seq<byte>, rs: nat)
  {
    exists id :: 0 <= id < |lens| && id < |values| && Used(lens, id) && values[id] == rs
  }

  ghost function IdOf(lens: seq<nat>, values: seq<byte>, rs: nat): (id: nat)
    requires Has(lens, values, rs)
    ensures id < |lens| && id < |values| && Used(lens, id) && values[id] == rs
  {
    var id :| 0 <= id < |lens| && id < |values| && Used(lens, id) && values[id] == rs;
    id
  }

  ghost function SymbolBits(lens: seq<nat>, values: seq<byte>, rs: nat): seq<nat>
    requires Has(lens, values, rs)
  {
    Msb(CodeOf(lens, IdOf(lens, values, rs)), lens[IdOf(lens, values, rs)])
  }

  lemma SymbolRead(ent: seq<byte>, pos: nat, lens: seq<nat>, values: seq<byte>, rs: nat)
    requires Fits(lens) && Has(lens, values, rs) && Written(ent, pos, SymbolBits(lens, values, rs))
    ensures var id := IdOf(lens, values, rs);
            |SymbolBits(lens, values, rs)| == lens[id]
            && Wanted(lens, Top(ent, pos, 16)) == Some(Symbol(id, lens[id]))
  {
    hide Fits, Written, Wanted, Top;
    CodeRead(ent, pos, lens, IdOf(lens, values, rs));
  }

  /** The first coefficient from `k` on that is not zero, or 64. */
  function NextNonZero(zz: seq<int>, k: nat): (j: nat)
    requires k <= |zz| == BLOCK
    ensures k <= j <= BLOCK && (forall i :: k <= i < j ==> zz[i] == 0) && (j < BLOCK ==> zz[j] != 0)
    decreases BLOCK - k
  {
    if k == BLOCK || zz[k] != 0 then k else NextNonZero(zz, k + 1)
  }

  /** Run and size of the next code: a coefficient, sixteen zeros, or the end of the block. */
  function NextRs(zz: seq<int>, k: nat): (rs: nat)
    requires k < |zz| == BLOCK && forall i :: 0 <= i < BLOCK ==> -SHRT_MAX <= zz[i] <= SHRT_MAX
    ensures rs < 256
  {
    var j := NextNonZero(zz, k);
    if j == BLOCK then 0 else if j - k >= 16 then ZRL
    else
      BitSizeSmall(Magnitude(zz[j]));
      (j - k) * 16 + Size(zz[j])
  }

  ghost predicate Encodable(lens: seq<nat>, values: seq<byte>, zz: seq<int>)
  {
    && |zz| == BLOCK && (forall i :: 0 <= i < BLOCK ==> -SHRT_MAX <= zz[i] <= SHRT_MAX)
    && forall k {:trigger NextRs(zz, k)} :: 0 < k < BLOCK ==> Has(lens, values, NextRs(zz, k))
  }

  /** The codes and extra bits of the coefficients from the `k`-th on. */
  ghost function AcBits(lens: seq<nat>, values: seq<byte>, zz: seq<int>, k: nat): seq<nat>
    requires Encodable(lens, values, zz) && 0 < k
    decreases BLOCK - k
  {
    if k >= BLOCK then [] else
    var j, bits := NextNonZero(zz, k), SymbolBits(lens, values, NextRs(zz, k));
    if j == BLOCK then bits
    else if j - k >= 16 then bits + AcBits(lens, values, zz, k + 16)
    else bits + (Msb(Extra(zz[j]), Size(zz[j])) + AcBits(lens, values, zz, j + 1))
  }

  /** The block with the dequantized coefficients from the `k`-th on in their places. */
  function Placed(zz: seq<int>, deq: seq<nat>, k: nat, data: seq<int>): (r: seq<int>)
    requires |zz| == |deq| == |data| == BLOCK
    ensures |r| == BLOCK
    decreases BLOCK - k
  {
    if k >= BLOCK then data
    else Placed(zz, deq, k + 1, if zz[k] == 0 then data else data[Dezigzag(k) := Short(zz[k] * deq[Dezigzag(k)])])
  }

  lemma {:induction false} PlacedSkip(zz: seq<int>, deq: seq<nat>, k: nat, j: nat, data: seq<int>)
    requires |zz| == |deq| == |data| == BLOCK && k <= j <= BLOCK && forall i :: k <= i < j ==> zz[i] == 0
    ensures Placed(zz, deq, k, data) == Placed(zz, deq, j, data)
    decreases j - k
  {
    hide Dezigzag;
    if k < j { PlacedSkip(zz, deq, k + 1, j, data); }
  }

  lemma PlacedOne(zz: seq<int>, deq: seq<nat>, j: nat, data: seq<int>)
    requires |zz| == |deq| == |data| == BLOCK && j < BLOCK && zz[j] != 0
    ensures Placed(zz, deq, j, data) == Placed(zz, deq, j + 1, data[Dezigzag(j) := Short(zz[j] * deq[Dezigzag(j)])])
  {
    hide Dezigzag;
  }

  /** One coefficient after fewer than sixteen zeros. */
  lemma CoefficientStep(ent: seq<byte>, pos: nat, lens: seq<nat>, values: seq<byte>, deq: seq<nat>, zz: seq<int>,
        k: nat, data: seq<int>)
    requires Fits(lens) && |lens| <= |values| && |deq| == |data| == BLOCK && Encodable(lens, values, zz)
             && 0 < k < BLOCK
    requires NextNonZero(zz, k) < BLOCK && NextNonZero(zz, k) - k < 16
    requires Written(ent, pos, AcBits(lens, values, zz, k)) && Has(lens, values, NextRs(zz, k))
    ensures var j := NextNonZero(zz, k);
            var p := pos + lens[IdOf(lens, values, NextRs(zz, k))] + Size(zz[j]);
            Written(ent, p, AcBits(lens, values, zz, j + 1))
            && p + |AcBits(lens, values, zz, j + 1)| == pos + |AcBits(lens, values, zz, k)|
            && RefAc(ent, pos, lens, values, deq, k, data)
               == RefAc(ent, p, lens, values, deq, j + 1, data[Dezigzag(j) := Short(zz[j] * deq[Dezigzag(j)])])
  {
    hide RefAc, Written, Placed, Msb, Wanted, Top, Dezigzag, Short, Extend, Extra, Size, Fits, Has, Pow2, SymbolBits,
         IdOf, Used;
    var j, rs := NextNonZero(zz, k), NextRs(zz, k);
    var id, v := IdOf(lens, values, rs), zz[j];
    var bits, p := SymbolBits(lens, values, rs), pos + lens[id];
    var extra, rest := Msb(Extra(v), Size(v)), AcBits(lens, values, zz, j + 1);
    AcStep(ent, pos, lens, values, deq, k, data);
    WrittenParts(ent, pos, bits, extra + rest);
    SymbolRead(ent, pos, lens, values, rs);
    WrittenParts(ent, p, extra, rest);
    SizeParts(v, j - k);
    MsbRead(ent, p, Extra(v), Size(v));
    ExtendExtra(v);
  }

  /** Sixteen zeros, or nothing but zeros to the end. */
  lemma ZerosStep(ent: seq<byte>, pos: nat, lens: seq<nat>, values: seq<byte>, deq: seq<nat>, zz: seq<int>, k: nat,
        data: seq<int>)
    requires Fits(lens) && |lens| <= |values| && |deq| == |data| == BLOCK && Encodable(lens, values, zz)
             && 0 < k < BLOCK
    requires NextNonZero(zz, k) == BLOCK || NextNonZero(zz, k) - k >= 16
    requires Written(ent, pos, AcBits(lens, values, zz, k)) && Has(lens, values, NextRs(zz, k))
    ensures var p := pos + lens[IdOf(lens, values, NextRs(zz, k))];
            if NextNonZero(zz, k) == BLOCK then
              RefAc(ent, pos, lens, values, deq, k, data) == Coefs(p, data) && p == pos + |AcBits(lens, values, zz, k)|
            else
              Written(ent, p, AcBits(lens, values, zz, k + 16))
              && p + |AcBits(lens, values, zz, k + 16)| == pos + |AcBits(lens, values, zz, k)|
              && RefAc(ent, pos, lens, values, deq, k, data) == RefAc(ent, p, lens, values, deq, k + 16, data)
  {
    hide RefAc, Written, Placed, Msb, Wanted, Top, Dezigzag, Short, Extend, Extra, Size, Fits, Has, Pow2, SymbolBits,
         IdOf, Used;
    var rs := NextRs(zz, k);
    AcStep(ent, pos, lens, values, deq, k, data);
    if NextNonZero(zz, k) != BLOCK {
      WrittenParts(ent, pos, SymbolBits(lens, values, rs), AcBits(lens, values, zz, k + 16));
    }
    SymbolRead(ent, pos, lens, values, rs);
  }

  /** AC coefficients come back as they were. */
  lemma {:induction false} AcRoundTrip(ent: seq<byte>, pos: nat, lens: seq<nat>, values: seq<byte>, deq: seq<nat>,
        zz: seq<int>, k: nat, data: seq<int>)
    requires Fits(lens) && |lens| <= |values| && |deq| == |data| == BLOCK && Encodable(lens, values, zz) && 0 < k
    requires Written(ent, pos, AcBits(lens, values, zz, k))
    ensures RefAc(ent, pos, lens, values, deq, k, data)
            == Coefs(pos + |AcBits(lens, values, zz, k)|, Placed(zz, deq, k, data))
    decreases BLOCK - k
  {
    hide RefAc, Written, Placed, AcBits, Wanted, Top, Dezigzag, Short, Size, Fits, Has, IdOf, Used;
    if k >= BLOCK {
      PastEnd(ent, pos, lens, values, deq, zz, k, data);
    } else {
      var j, rs := NextNonZero(zz, k), NextRs(zz, k);
      assert Has(lens, values, rs);
      var p := pos + lens[IdOf(lens, values, rs)];
      if j == BLOCK || j - k >= 16 {
        ZerosStep(ent, pos, lens, values, deq, zz, k, data);
        var next := if j == BLOCK then BLOCK else k + 16;
        PlacedSkip(zz, deq, k, next, data);
        if j == BLOCK {
          PastEnd(ent, p, lens, values, deq, zz, j, data);
        } else {
          AcRoundTrip(ent, p, lens, values, deq, zz, next, data);
        }
      } else {
        CoefficientStep(ent, pos, lens, values, deq, zz, k, data);
        PlacedSkip(zz, deq, k, j, data);
        PlacedOne(zz, deq, j, data);
        AcRoundTrip(ent, p + Size(zz[j]), lens, values, deq, zz, j + 1,
          data[Dezigzag(j) := Short(zz[j] * deq[Dezigzag(j)])]);
      }
    }
  }

  lemma SizeParts(v: int, run: nat)
    requires v != 0 && -SHRT_MAX <= v <= SHRT_MAX && run < 16
    ensures 1 <= Size(v) <= 15 && (run * 16 + Size(v)) % 16 == Size(v) && (run * 16 + Size(v)) / 16 == run
  {
    BitSizeSmall(Magnitude(v));
    assert Size(v) > 0;
    hide Size;
    LowDigit(run, Size(v));
  }

  lemma PastEnd(ent: seq<byte>, pos: nat, lens: seq<nat>, values: seq<byte>, deq: seq<nat>, zz: seq<int>, k: nat,
        data: seq<int>)
    requires |lens| <= |values| && |zz| == |deq| == |data| == BLOCK && k >= BLOCK
    ensures RefAc(ent, pos, lens, values, deq, k, data) == Coefs(pos, data) && Placed(zz, deq, k, data) == data
    ensures k > 0 && Encodable(lens, values, zz) ==> AcBits(lens, values, zz, k) == []
  {}

  /** In the finished block every coefficient stands at its own place. */
  lemma {:induction false} PlacedAt(zz: seq<int>, deq: seq<nat>, k: nat, data: seq<int>, i: nat)
    requires |zz| == |deq| == |data| == BLOCK && i < BLOCK
    ensures Placed(zz, deq, k, data)[Dezigzag(i)] ==
            if i < k || zz[i] == 0 then data[Dezigzag(i)] else Short(zz[i] * deq[Dezigzag(i)])
    decreases BLOCK - k
  {
    hide Dezigzag, Zigzag, Short;
    if k < BLOCK {
      ZigzagInverse(k);
      ZigzagInverse(i);
      PlacedAt(zz, deq, k + 1, if zz[k] == 0 then data else data[Dezigzag(k) := Short(zz[k] * deq[Dezigzag(k)])], i);
    }
  }

  // ----- whole blocks -----

  /** A block of quantized coefficients, the first given by its difference to the prediction. */
  ghost function BlockBits(dcLens: seq<nat>, dcValues: seq<byte>, acLens: seq<nat>, acValues: seq<byte>, diff: int,
        zz: seq<int>): seq<nat>
    requires Has(dcLens, dcValues, Size(diff)) && Encodable(acLens, acValues, zz)
  {
    SymbolBits(dcLens, dcValues, Size(diff)) + (Msb(Extra(diff), Size(diff)) + AcBits(acLens, acValues, zz, 1))
  }

  /** Any coefficients the tables have codes for come back multiplied by the quantization factors. */
  lemma BlockRoundTrip(ent: seq<byte>, pos: nat, dcLens: seq<nat>, dcValues: seq<byte>, acLens: seq<nat>,
        acValues: seq<byte>,
                       deq: seq<nat>, pred: int, diff: int, zz: seq<int>)
    requires Fits(dcLens) && Fits(acLens) && |dcLens| <= |dcValues| && |acLens| <= |acValues| && |deq| == BLOCK
    requires -SHRT_MAX <= diff <= SHRT_MAX && Has(dcLens, dcValues, Size(diff)) && Encodable(acLens, acValues, zz)
    requires -0x8000_0000 <= pred <= INT_MAX && -0x8000_0000 <= pred + diff <= INT_MAX
    requires SHRT_MIN <= (pred + diff) * deq[0] <= SHRT_MAX
    requires Written(ent, pos, BlockBits(dcLens, dcValues, acLens, acValues, diff, zz))
    ensures RefBlock(ent, pos, dcLens, dcValues, acLens, acValues, deq, pred)
            == Block(pos + |BlockBits(dcLens, dcValues, acLens, acValues, diff, zz)|, pred + diff,
                     Placed(zz, deq, 1, Zeros(BLOCK)[0 := (pred + diff) * deq[0]]))
  {
    hide RefAc, RefDc, Written, Placed, Msb, Wanted, Top, Extend, Extra, Size, CodeOf, Fits, Has, Pow2, AddIntsValid,
         Mul2ShortsValid, AcBits, Zeros;
    var id := IdOf(dcLens, dcValues, Size(diff));
    var extra, rest := Msb(Extra(diff), Size(diff)), AcBits(acLens, acValues, zz, 1);
    var p := pos + dcLens[id];
    WrittenParts(ent, pos, SymbolBits(dcLens, dcValues, Size(diff)), extra + rest);
    WrittenParts(ent, p, extra, rest);
    CodeRead(ent, pos, dcLens, id);
    SmallSize(diff);
    MsbRead(ent, p, Extra(diff), Size(diff));
    ExtendExtra(diff);
    AddIntsExact(pred, diff);
    Mul2ShortsExact(pred + diff, deq[0]);
    DcStep(ent, pos, dcLens, dcValues, deq[0], pred);
    AcRoundTrip(ent, p + Size(diff), acLens, acValues, deq, zz, 1, Zeros(BLOCK)[0 := (pred + diff) * deq[0]]);
  }

  lemma SmallSize(v: int)
    requires -SHRT_MAX <= v <= SHRT_MAX
    ensures Size(v) <= 15
  {
    BitSizeSmall(Magnitude(v));
  }
}
