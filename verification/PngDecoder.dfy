/** PNG reconstruction as the program runs it: two alternating row buffers, special first-row
    filters, bit unpacking and in-place alpha expansion, each proved against `Png`. */
module PngDecoder {
  import opened Arithmetic
  import opened Bits
  import opened PixelGrid
  import opened Png
  import opened SizeChecks
  import opened Adam7
  import opened PngPasses

  const F_AVG_FIRST := 5

  /** `first_row_filter`: filters that never look at the row above. */
  function FirstRowFilter(filter: nat): nat
    requires filter <= 4
  {
    if filter == 0 then 0 else if filter == 1 then 1 else if filter == 2 then 0
    else if filter == 3 then F_AVG_FIRST else 1
  }

  /** The part of `buf` outside the `n` bytes at `cur` is as it was. */
  twostate predicate OnlyRow(buf: array<byte>, cur: nat, n: nat)
    reads buf
  {
    forall i :: 0 <= i < buf.Length && !(cur <= i < cur + n) ==> buf[i] == old(buf[i])
  }

  lemma AvgByte(x: byte, a: byte, b: byte, c: byte)
    ensures UnfilterByte(3, x, a, b, c) == (x as int + (a as int + b as int) / 2) % 256
  {}

  lemma PaethByte(x: byte, a: byte, b: byte, c: byte)
    ensures UnfilterByte(4, x, a, b, c) == (x as int + Paeth(a, b, c)) % 256
    ensures a == 0 && c == 0 ==> Paeth(a, b, c) == b
  {
    PaethIsStandard(a, b, c);
  }

  lemma ReconNone(filt: nat, bpp: nat, above: seq<byte>, row: seq<byte>)
    requires bpp > 0 && |row| <= |above|
    ensures Recon(filt, bpp, above, row, 0) == []
  {}

  /** Store reconstructed byte `k` of a row. */
  method Put(buf: array<byte>, cur: nat, k: nat, nk: nat, v: byte, ghost filt: nat, ghost bpp: nat,
        ghost above: seq<byte>, ghost row: seq<byte>)
    requires bpp > 0 && k < nk == |above| == |row| && cur + nk <= buf.Length
    requires buf[cur..cur + k] == Recon(filt, bpp, above, row, k)
    requires v == UnfilterByte(filt, row[k], if k < bpp then 0 else buf[cur + k - bpp],
                               above[k], if k < bpp then 0 else above[k - bpp])
    modifies buf
    ensures buf[cur..cur + k + 1] == Recon(filt, bpp, above, row, k + 1)
    ensures forall i :: 0 <= i < buf.Length && i != cur + k ==> buf[i] == old(buf[i])
  {
    hide UnfilterByte;
    assert k >= bpp ==> buf[cur..cur + k][k - bpp] == buf[cur + k - bpp];
    buf[cur + k] := v;
    assert buf[cur..cur + k + 1] == buf[cur..cur + k] + [v];
  }

  /** A row copied as it is: no filter, or "up" with nothing above. */
  method UnfilterNone(buf: array<byte>, cur: nat, raw: seq<byte>, off: nat, bpp: nat, nk: nat, ghost filt: nat,
        ghost above: seq<byte>)
    requires bpp > 0 && off + nk <= |raw| && cur + nk <= buf.Length && |above| == nk
    requires filt == 0 || (filt == 2 && above == Zeros(nk))
    modifies buf
    ensures buf[cur..cur + nk] == Recon(filt, bpp, above, raw[off..off + nk], nk)
    ensures OnlyRow(buf, cur, nk)
  {
    hide Recon;
    ghost var row := raw[off..off + nk];
    ReconNone(filt, bpp, above, row);
    for k := 0 to nk
      invariant buf[cur..cur + k] == Recon(filt, bpp, above, row, k)
      invariant OnlyRow(buf, cur, nk)
    {
      Put(buf, cur, k, nk, raw[off + k], filt, bpp, above, row);
    }
  }

  /** Each byte adds the one a pixel to the left: "sub", or "paeth" with nothing above. */
  method UnfilterSub(buf: array<byte>, cur: nat, raw: seq<byte>, off: nat, bpp: nat, nk: nat, ghost filt: nat,
        ghost above: seq<byte>)
    requires 0 < bpp <= nk && off + nk <= |raw| && cur + nk <= buf.Length && |above| == nk
    requires filt == 1 || (filt == 4 && above == Zeros(nk))
    modifies buf
    ensures buf[cur..cur + nk] == Recon(filt, bpp, above, raw[off..off + nk], nk)
    ensures OnlyRow(buf, cur, nk)
  {
    hide Recon;
    ghost var row := raw[off..off + nk];
    ReconNone(filt, bpp, above, row);
    for k := 0 to bpp
      invariant buf[cur..cur + k] == Recon(filt, bpp, above, row, k)
      invariant OnlyRow(buf, cur, nk)
    {
      Put(buf, cur, k, nk, raw[off + k], filt, bpp, above, row);
    }
    for k := bpp to nk
      invariant buf[cur..cur + k] == Recon(filt, bpp, above, row, k)
      invariant OnlyRow(buf, cur, nk)
    {
      Put(buf, cur, k, nk, (raw[off + k] as int + buf[cur + k - bpp] as int) % 256, filt, bpp, above, row);
    }
  }

  method UnfilterUp(buf: array<byte>, cur: nat, prior: nat, raw: seq<byte>, off: nat, bpp: nat, nk: nat)
    requires bpp > 0 && off + nk <= |raw| && cur + nk <= buf.Length && prior + nk <= buf.Length
    requires cur + nk <= prior || prior + nk <= cur
    modifies buf
    ensures buf[cur..cur + nk] == Recon(2, bpp, old(buf[prior..prior + nk]), raw[off..off + nk], nk)
    ensures OnlyRow(buf, cur, nk)
  {
    hide Recon;
    ghost var row := raw[off..off + nk];
    ghost var above := buf[prior..prior + nk];
    ReconNone(2, bpp, above, row);
    for k := 0 to nk
      invariant buf[cur..cur + k] == Recon(2, bpp, above, row, k)
      invariant OnlyRow(buf, cur, nk)
      invariant forall i :: 0 <= i < nk ==> buf[prior + i] == above[i]
    {
      Put(buf, cur, k, nk, (raw[off + k] as int + buf[prior + k] as int) % 256, 2, bpp, above, row);
    }
  }

  method UnfilterAvg(buf: array<byte>, cur: nat, prior: nat, raw: seq<byte>, off: nat, bpp: nat, nk: nat)
    requires 0 < bpp <= nk && off + nk <= |raw| && cur + nk <= buf.Length && prior + nk <= buf.Length
    requires cur + nk <= prior || prior + nk <= cur
    modifies buf
    ensures buf[cur..cur + nk] == Recon(3, bpp, old(buf[prior..prior + nk]), raw[off..off + nk], nk)
    ensures OnlyRow(buf, cur, nk)
  {
    hide Recon, UnfilterByte;
    ghost var row := raw[off..off + nk];
    ghost var above := buf[prior..prior + nk];
    UnfilterAvgHead(buf, cur, prior, raw, off, bpp, nk);
    for k := bpp to nk
      invariant buf[cur..cur + k] == Recon(3, bpp, above, row, k)
      invariant OnlyRow(buf, cur, nk)
      invariant forall i :: 0 <= i < nk ==> buf[prior + i] == above[i]
    {
      AvgByte(row[k], buf[cur + k - bpp], above[k], above[k - bpp]);
      Put(buf, cur, k, nk, (raw[off + k] as int + (buf[prior + k] as int + buf[cur + k - bpp] as int) / 2) % 256, 3,
        bpp, above, row);
    }
  }

  /** The first pixel has nothing to its left. */
  method UnfilterAvgHead(buf: array<byte>, cur: nat, prior: nat, raw: seq<byte>, off: nat, bpp: nat, nk: nat)
    requires 0 < bpp <= nk && off + nk <= |raw| && cur + nk <= buf.Length && prior + nk <= buf.Length
    requires cur + nk <= prior || prior + nk <= cur
    modifies buf
    ensures buf[cur..cur + bpp] == Recon(3, bpp, old(buf[prior..prior + nk]), raw[off..off + nk], bpp)
    ensures OnlyRow(buf, cur, nk)
  {
    hide Recon, UnfilterByte;
    ghost var row := raw[off..off + nk];
    ghost var above := buf[prior..prior + nk];
    ReconNone(3, bpp, above, row);
    for k := 0 to bpp
      invariant buf[cur..cur + k] == Recon(3, bpp, above, row, k)
      invariant OnlyRow(buf, cur, nk)
      invariant forall i :: 0 <= i < nk ==> buf[prior + i] == above[i]
    {
      AvgByte(row[k], 0, above[k], 0);
      Put(buf, cur, k, nk, (raw[off + k] as int + buf[prior + k] as int / 2) % 256, 3, bpp, above, row);
    }
  }

  /** "avg" with nothing above. */
  method UnfilterAvgFirst(buf: array<byte>, cur: nat, raw: seq<byte>, off: nat, bpp: nat, nk: nat)
    requires 0 < bpp <= nk && off + nk <= |raw| && cur + nk <= buf.Length
    modifies buf
    ensures buf[cur..cur + nk] == Recon(3, bpp, Zeros(nk), raw[off..off + nk], nk)
    ensures OnlyRow(buf, cur, nk)
  {
    hide Recon;
    ghost var row := raw[off..off + nk];
    ReconNone(3, bpp, Zeros(nk), row);
    for k := 0 to bpp
      invariant buf[cur..cur + k] == Recon(3, bpp, Zeros(nk), row, k)
      invariant OnlyRow(buf, cur, nk)
    {
      Put(buf, cur, k, nk, raw[off + k], 3, bpp, Zeros(nk), row);
    }
    for k := bpp to nk
      invariant buf[cur..cur + k] == Recon(3, bpp, Zeros(nk), row, k)
      invariant OnlyRow(buf, cur, nk)
    {
      Put(buf, cur, k, nk, (raw[off + k] as int + buf[cur + k - bpp] as int / 2) % 256, 3, bpp, Zeros(nk), row);
    }
  }

  method UnfilterPaeth(buf: array<byte>, cur: nat, prior: nat, raw: seq<byte>, off: nat, bpp: nat, nk: nat)
    requires 0 < bpp <= nk && off + nk <= |raw| && cur + nk <= buf.Length && prior + nk <= buf.Length
    requires cur + nk <= prior || prior + nk <= cur
    modifies buf
    ensures buf[cur..cur + nk] == Recon(4, bpp, old(buf[prior..prior + nk]), raw[off..off + nk], nk)
    ensures OnlyRow(buf, cur, nk)
  {
    hide Recon, UnfilterByte, Paeth;
    ghost var row := raw[off..off + nk];
    ghost var above := buf[prior..prior + nk];
    UnfilterPaethHead(buf, cur, prior, raw, off, bpp, nk);
    for k := bpp to nk
      invariant buf[cur..cur + k] == Recon(4, bpp, above, row, k)
      invariant OnlyRow(buf, cur, nk)
      invariant forall i :: 0 <= i < nk ==> buf[prior + i] == above[i]
    {
      PaethByte(row[k], buf[cur + k - bpp], above[k], above[k - bpp]);
      var predicted := Paeth(buf[cur + k - bpp], buf[prior + k], buf[prior + k - bpp]);
      Put(buf, cur, k, nk, (raw[off + k] as int + predicted) % 256, 4, bpp, above, row);
    }
  }

  /** In the first pixel the predictor is the byte above. */
  method UnfilterPaethHead(buf: array<byte>, cur: nat, prior: nat, raw: seq<byte>, off: nat, bpp: nat, nk: nat)
    requires 0 < bpp <= nk && off + nk <= |raw| && cur + nk <= buf.Length && prior + nk <= buf.Length
    requires cur + nk <= prior || prior + nk <= cur
    modifies buf
    ensures buf[cur..cur + bpp] == Recon(4, bpp, old(buf[prior..prior + nk]), raw[off..off + nk], bpp)
    ensures OnlyRow(buf, cur, nk)
  {
    hide Recon, UnfilterByte, Paeth;
    ghost var row := raw[off..off + nk];
    ghost var above := buf[prior..prior + nk];
    ReconNone(4, bpp, above, row);
    for k := 0 to bpp
      invariant buf[cur..cur + k] == Recon(4, bpp, above, row, k)
      invariant OnlyRow(buf, cur, nk)
      invariant forall i :: 0 <= i < nk ==> buf[prior + i] == above[i]
    {
      PaethByte(row[k], 0, above[k], 0);
      Put(buf, cur, k, nk, (raw[off + k] as int + buf[prior + k] as int) % 256, 4, bpp, above, row);
    }
  }

  /** One scanline: the first row's substituted filters give what the real ones give over a zero row. */
  method UnfilterRow(buf: array<byte>, cur: nat, prior: nat, raw: seq<byte>, off: nat, bpp: nat, nk: nat, filt: nat,
        first: bool)
    requires filt <= 4 && 0 < bpp <= nk && off + nk <= |raw|
    requires cur + nk <= buf.Length && prior + nk <= buf.Length && (cur + nk <= prior || prior + nk <= cur)
    modifies buf
    ensures var above := if first then Zeros(nk) else old(buf[prior..prior + nk]);
            buf[cur..cur + nk] == Recon(filt, bpp, above, raw[off..off + nk], nk)
    ensures OnlyRow(buf, cur, nk)
  {
    hide Recon;
    var filter := if first then FirstRowFilter(filt) else filt;
    ghost var above := if first then Zeros(nk) else buf[prior..prior + nk];
    if filter == 0 {
      UnfilterNone(buf, cur, raw, off, bpp, nk, filt, above);
    } else if filter == 1 {
      UnfilterSub(buf, cur, raw, off, bpp, nk, filt, above);
    } else if filter == 2 {
      UnfilterUp(buf, cur, prior, raw, off, bpp, nk);
    } else if filter == 3 {
      UnfilterAvg(buf, cur, prior, raw, off, bpp, nk);
    } else if filter == 4 {
      UnfilterPaeth(buf, cur, prior, raw, off, bpp, nk);
    } else {
      UnfilterAvgFirst(buf, cur, raw, off, bpp, nk);
    }
  }

  // ----- from reconstructed bytes to output bytes -----

  /** `stbi__create_png_alpha_expand8`: backwards, so that expanding in place is legal. */
  method AlphaExpand8(dest: array<byte>, doff: nat, src: array<byte>, soff: nat, x: nat, img_n: nat)
    requires img_n == 1 || img_n == 3
    requires doff + (img_n + 1) * x <= dest.Length && soff + img_n * x <= src.Length
    requires dest != src || doff == soff
    modifies dest
    ensures dest[doff..doff + (img_n + 1) * x] == WithAlpha(old(src[soff..soff + img_n * x]), x, img_n, 1)
    ensures OnlyRow(dest, doff, (img_n + 1) * x)
  {
    hide WithAlpha;
    AlphaTailWhole(src[soff..soff + img_n * x], x, img_n, 1);
    if img_n == 1 {
      Expand1(dest, doff, src, soff, x);
    } else {
      Expand3(dest, doff, src, soff, x);
    }
  }

  method Expand1(dest: array<byte>, doff: nat, src: array<byte>, soff: nat, x: nat)
    requires doff + 2 * x <= dest.Length && soff + x <= src.Length
    requires dest != src || doff == soff
    modifies dest
    ensures dest[doff..doff + 2 * x] == AlphaTail(old(src[soff..soff + x]), x, 1, 1, 0)
    ensures OnlyRow(dest, doff, 2 * x)
  {
    ghost var s := src[soff..soff + x];
    for i := x downto 0
      invariant dest[doff + 2 * i..doff + 2 * x] == AlphaTail(s, x, 1, 1, i)
      invariant forall k :: soff <= k < soff + i ==> src[k] == s[k - soff]
      invariant OnlyRow(dest, doff, 2 * x)
    {
      StorePixel1(dest, doff, src, soff, i, doff + 2 * x);
      assert s[i..i + 1] + Opaque(1) == [s[i], 255];
    }
  }

  method StorePixel1(dest: array<byte>, doff: nat, src: array<byte>, soff: nat, i: nat, ghost end: nat)
    requires doff + 2 * i + 2 <= end <= dest.Length && soff + i < src.Length
    requires dest != src || doff == soff
    modifies dest
    ensures dest[doff + 2 * i..end] == [old(src[soff + i]), 255] + old(dest[doff + 2 * i + 2..end])
    ensures forall k :: soff <= k < soff + i ==> src[k] == old(src[k])
    ensures OnlyRow(dest, doff + 2 * i, 2)
  {
    dest[doff + i * 2 + 1] := 255;
    dest[doff + i * 2] := src[soff + i];
  }

  method Expand3(dest: array<byte>, doff: nat, src: array<byte>, soff: nat, x: nat)
    requires doff + 4 * x <= dest.Length && soff + 3 * x <= src.Length
    requires dest != src || doff == soff
    modifies dest
    ensures dest[doff..doff + 4 * x] == AlphaTail(old(src[soff..soff + 3 * x]), x, 3, 1, 0)
    ensures OnlyRow(dest, doff, 4 * x)
  {
    ghost var s := src[soff..soff + 3 * x];
    for i := x downto 0
      invariant dest[doff + 4 * i..doff + 4 * x] == AlphaTail(s, x, 3, 1, i)
      invariant forall k :: soff <= k < soff + 3 * i ==> src[k] == s[k - soff]
      invariant OnlyRow(dest, doff, 4 * x)
    {
      StorePixel3(dest, doff, src, soff, i, doff + 4 * x);
      assert s[3 * i..3 * i + 3] + Opaque(1) == [s[3 * i], s[3 * i + 1], s[3 * i + 2], 255];
    }
  }

  /** Pixel `i`, last byte first. */
  method StorePixel3(dest: array<byte>, doff: nat, src: array<byte>, soff: nat, i: nat, ghost end: nat)
    requires doff + 4 * i + 4 <= end <= dest.Length && soff + 3 * i + 3 <= src.Length
    requires dest != src || doff == soff
    modifies dest
    ensures dest[doff + 4 * i..end]
            == [old(src[soff + 3 * i]), old(src[soff + 3 * i + 1]), old(src[soff + 3 * i + 2]), 255]
                                       + old(dest[doff + 4 * i + 4..end])
    ensures forall k :: soff <= k < soff + 3 * i ==> src[k] == old(src[k])
    ensures OnlyRow(dest, doff + 4 * i, 4)
  {
    dest[doff + i * 4 + 3] := 255;
    dest[doff + i * 4 + 2] := src[soff + i * 3 + 2];
    dest[doff + i * 4 + 1] := src[soff + i * 3 + 1];
    dest[doff + i * 4] := src[soff + i * 3];
  }

  // ----- packed samples -----

  /** What is left in the unpacking byte after `k` bits have been shifted out at the top. */
  function Remaining(b: byte, k: nat): nat
    requires k <= 8
  {
    Shl(Low(b, 8 - k), k)
  }

  lemma RemainingStart(b: byte)
    ensures Remaining(b, 0) == b
  {
    SmallPowers();
    SmallLow(b, 8);
  }

  /** The top `d` bits of what remains are the next sample. */
  lemma RemainingTop(b: byte, k: nat, d: nat)
    requires k + d <= 8
    ensures Shr(Remaining(b, k), 8 - d) == Low(Shr(b, 8 - k - d), d)
  {
    var v := Low(b, 8 - k);
    Join(0, v, k);
    ShrShr(Shl(v, k), k, 8 - d - k);
    LowOfShr(b, 8 - k - d, d);
  }

  lemma {:induction false} LowOfShr(b: nat, m: nat, d: nat)
    ensures Shr(Low(b, m + d), m) == Low(Shr(b, m), d)
    decreases m
  {
    if m > 0 { LowOfShr(b / 2, m - 1, d); }
  }

  /** Shifting the byte left by `d` more bits. */
  lemma RemainingStep(b: byte, k: nat, d: nat)
    requires k + d <= 8
    ensures Low(Shl(Remaining(b, k), d), 8) == Remaining(b, k + d)
  {
    hide Low, Shl;
    ShlShl(Low(b, 8 - k), k, d);
    LowOfShl(Low(b, 8 - k), k + d, 8 - k - d);
    LowLow(b, 8 - k - d, 8 - k);
  }

  lemma {:induction false} LowOfShl(v: nat, k: nat, m: nat)
    ensures Low(Shl(v, k), k + m) == Shl(Low(v, m), k)
  {
    if k > 0 { LowOfShl(v, k - 1, m); }
  }

  /** Sample `t` of the current byte and the byte left after it. */
  lemma NextSample(b: byte, depth: nat, t: nat, inb: byte)
    requires depth == 1 || depth == 2 || depth == 4
    requires depth * (t + 1) <= 8 && inb == Remaining(b, depth * t)
    ensures Shr(inb, 8 - depth) == PackedSample(b, depth, t)
    ensures Low(Shl(inb, depth), 8) == Remaining(b, depth * (t + 1)) < 256
  {
    RemainingTop(b, depth * t, depth);
    RemainingStep(b, depth * t, depth);
    LowBound(Shl(inb, depth), 8);
    SmallPowers();
  }

  lemma SampleIs(row: seq<byte>, depth: nat, color: nat, s: nat, q: nat, t: nat)
    requires depth == 1 || depth == 2 || depth == 4
    requires q < |row| && t < PerByte(depth) && s == PerByte(depth) * q + t
    ensures s / PerByte(depth) == q && s % PerByte(depth) == t
    ensures Sample(row, depth, color, s) == (Scale(depth, color) * PackedSample(row[q], depth, t)) % 256
  {
    hide Scale, PackedSample;
  }

  /** Spread packed samples of less than 8 bits into bytes. */
  method UnpackRow(dest: array<byte>, doff: nat, row: array<byte>, roff: nat, ghost w: nat, nsmp: nat, depth: nat,
        color: nat)
    requires depth == 1 || depth == 2 || depth == 4
    requires dest != row && roff + w <= row.Length && doff + nsmp <= dest.Length && nsmp <= PerByte(depth) * w
    modifies dest
    ensures dest[doff..doff + nsmp] == Samples(row[roff..roff + w], depth, color, nsmp)
    ensures OnlyRow(dest, doff, nsmp)
  {
    var scale := Scale(depth, color);
    if depth == 4 {
      Unpack4(dest, doff, row, roff, w, nsmp, color, scale);
    } else if depth == 2 {
      Unpack2(dest, doff, row, roff, w, nsmp, color, scale);
    } else {
      Unpack1(dest, doff, row, roff, w, nsmp, color, scale);
    }
  }

  method Unpack4(dest: array<byte>, doff: nat, row: array<byte>, roff: nat, ghost w: nat, nsmp: nat,
        ghost color: nat, scale: nat)
    requires dest != row && roff + w <= row.Length && doff + nsmp <= dest.Length && nsmp <= 2 * w
    requires scale == Scale(4, color)
    modifies dest
    ensures dest[doff..doff + nsmp] == Samples(row[roff..roff + w], 4, color, nsmp)
    ensures OnlyRow(dest, doff, nsmp)
  {
    hide Remaining, PackedSample, Low, Shl, Shr, Scale, Sample;
    ghost var r := row[roff..roff + w];
    var inb: byte, inp := 0, roff;
    for i := 0 to nsmp
      invariant OnlyRow(dest, doff, nsmp) && inp == roff + (i + 1) / 2
      invariant i % 2 != 0 ==> inb == Remaining(r[i / 2], 4 * (i % 2))
      invariant forall q :: doff <= q < doff + i ==> dest[q] == Sample(r, 4, color, q - doff)
    {
      if i % 2 == 0 {
        inb := row[inp];
        inp := inp + 1;
        RemainingStart(inb);
      }
      NextSample(r[i / 2], 4, i % 2, inb);
      SampleIs(r, 4, color, i, i / 2, i % 2);
      dest[doff + i] := (scale * Shr(inb, 4)) % 256;
      inb := Low(Shl(inb, 4), 8);
    }
  }

  method Unpack2(dest: array<byte>, doff: nat, row: array<byte>, roff: nat, ghost w: nat, nsmp: nat,
        ghost color: nat, scale: nat)
    requires dest != row && roff + w <= row.Length && doff + nsmp <= dest.Length && nsmp <= 4 * w
    requires scale == Scale(2, color)
    modifies dest
    ensures dest[doff..doff + nsmp] == Samples(row[roff..roff + w], 2, color, nsmp)
    ensures OnlyRow(dest, doff, nsmp)
  {
    hide Remaining, PackedSample, Low, Shl, Shr, Scale, Sample;
    ghost var r := row[roff..roff + w];
    var inb: byte, inp := 0, roff;
    for i := 0 to nsmp
      invariant OnlyRow(dest, doff, nsmp) && inp == roff + (i + 3) / 4
      invariant i % 4 != 0 ==> inb == Remaining(r[i / 4], 2 * (i % 4))
      invariant forall q :: doff <= q < doff + i ==> dest[q] == Sample(r, 2, color, q - doff)
    {
      if i % 4 == 0 {
        inb := row[inp];
        inp := inp + 1;
        RemainingStart(inb);
      }
      NextSample(r[i / 4], 2, i % 4, inb);
      SampleIs(r, 2, color, i, i / 4, i % 4);
      dest[doff + i] := (scale * Shr(inb, 6)) % 256;
      inb := Low(Shl(inb, 2), 8);
    }
  }

  method Unpack1(dest: array<byte>, doff: nat, row: array<byte>, roff: nat, ghost w: nat, nsmp: nat,
        ghost color: nat, scale: nat)
    requires dest != row && roff + w <= row.Length && doff + nsmp <= dest.Length && nsmp <= 8 * w
    requires scale == Scale(1, color)
    modifies dest
    ensures dest[doff..doff + nsmp] == Samples(row[roff..roff + w], 1, color, nsmp)
    ensures OnlyRow(dest, doff, nsmp)
  {
    hide Remaining, PackedSample, Low, Shl, Shr, Scale, Sample;
    ghost var r := row[roff..roff + w];
    var inb: byte, inp := 0, roff;
    for i := 0 to nsmp
      invariant OnlyRow(dest, doff, nsmp) && inp == roff + (i + 7) / 8
      invariant i % 8 != 0 ==> inb == Remaining(r[i / 8], 1 * (i % 8))
      invariant forall q :: doff <= q < doff + i ==> dest[q] == Sample(r, 1, color, q - doff)
    {
      if i % 8 == 0 {
        inb := row[inp];
        inp := inp + 1;
        RemainingStart(inb);
      }
      NextSample(r[i / 8], 1, i % 8, inb);
      SampleIs(r, 1, color, i, i / 8, i % 8);
      dest[doff + i] := (scale * Shr(inb, 7)) % 256;
      inb := Low(Shl(inb, 1), 8);
    }
  }

  method CopyRow(dest: array<byte>, doff: nat, src: array<byte>, soff: nat, n: nat)
    requires dest != src && doff + n <= dest.Length && soff + n <= src.Length
    modifies dest
    ensures dest[doff..doff + n] == src[soff..soff + n]
    ensures OnlyRow(dest, doff, n)
  {
    for i := 0 to n
      invariant dest[doff..doff + i] == src[soff..soff + i]
      invariant OnlyRow(dest, doff, n)
    {
      dest[doff + i] := src[soff + i];
      assert dest[doff..doff + i + 1] == dest[doff..doff + i] + [src[soff + i]];
    }
  }

  // ----- 16-bit samples, stored low byte first -----

  /** One big-endian sample. */
  method Store16(dest: array<byte>, d: nat, src: array<byte>, s: nat)
    requires dest != src && d + 2 <= dest.Length && s + 2 <= src.Length
    modifies dest
    ensures dest[d] == src[s + 1] && dest[d + 1] == src[s]
    ensures OnlyRow(dest, d, 2)
  {
    var v := src[s] as int * 256 + src[s + 1] as int;
    dest[d] := v % 256;
    dest[d + 1] := v / 256;
  }

  method Copy16(dest: array<byte>, doff: nat, src: array<byte>, soff: nat, nsmp: nat)
    requires dest != src && doff + 2 * nsmp <= dest.Length && soff + 2 * nsmp <= src.Length
    modifies dest
    ensures dest[doff..doff + 2 * nsmp] == Swapped(src[soff..soff + 2 * nsmp], nsmp)
    ensures OnlyRow(dest, doff, 2 * nsmp)
  {
    ghost var row := src[soff..soff + 2 * nsmp];
    for i := 0 to nsmp
      invariant dest[doff..doff + 2 * i] == Swapped(row, i)
      invariant OnlyRow(dest, doff, 2 * nsmp)
    {
      ghost var done := dest[doff..doff + 2 * i];
      Store16(dest, doff + 2 * i, src, soff + 2 * i);
      assert dest[doff..doff + 2 * (i + 1)] == done + [row[2 * i + 1], row[2 * i]];
    }
  }

  /** A pixel of 16-bit grey with its opaque alpha. */
  lemma Grey16Is(row: seq<byte>, x: nat, i: nat)
    requires i < x && |row| >= 2 * x
    ensures Swapped(row, x)[2 * i..2 * (i + 1)] + Opaque(2) == [row[2 * i + 1], row[2 * i], 255, 255]
  {
    hide Swapped;
    SwappedAt(row, x, i);
  }

  /** A pixel of 16-bit colour with its opaque alpha. */
  lemma Colour16Is(row: seq<byte>, x: nat, i: nat)
    requires i < x && |row| >= 6 * x
    ensures Swapped(row, 3 * x)[6 * i..6 * (i + 1)] + Opaque(2) ==
            [row[6 * i + 1], row[6 * i], row[6 * i + 3], row[6 * i + 2], row[6 * i + 5], row[6 * i + 4], 255, 255]
  {
    hide Swapped, Opaque;
    SwappedAt(row, 3 * x, 3 * i);
    SwappedAt(row, 3 * x, 3 * i + 1);
    SwappedAt(row, 3 * x, 3 * i + 2);
  }

  lemma AlphaStep(s: seq<byte>, i: nat, n: nat, a: nat)
    requires AlphaShape(n, a) && |s| >= n * (i + 1) && |s| >= n * i
    ensures WithAlpha(s, i + 1, n, a) == WithAlpha(s, i, n, a) + (s[n * i..n * (i + 1)] + Opaque(a))
  {
    assert WithAlpha(s, i, n, a) + s[n * i..n * (i + 1)] + Opaque(a)
           == WithAlpha(s, i, n, a) + (s[n * i..n * (i + 1)] + Opaque(a));
  }

  method Alpha16Grey(dest: array<byte>, doff: nat, src: array<byte>, soff: nat, x: nat)
    requires dest != src && doff + 4 * x <= dest.Length && soff + 2 * x <= src.Length
    modifies dest
    ensures dest[doff..doff + 4 * x] == WithAlpha(Swapped(src[soff..soff + 2 * x], x), x, 2, 2)
    ensures OnlyRow(dest, doff, 4 * x)
  {
    hide Swapped, Opaque, WithAlpha;
    ghost var row := src[soff..soff + 2 * x];
    assert WithAlpha(Swapped(row, x), 0, 2, 2) == [];
    for i := 0 to x
      invariant dest[doff..doff + 4 * i] == WithAlpha(Swapped(row, x), i, 2, 2)
      invariant OnlyRow(dest, doff, 4 * x)
    {
      Grey16Is(row, x, i);
      AlphaStep(Swapped(row, x), i, 2, 2);
      Grey16(dest, doff, doff + 4 * i, src, soff + 2 * i);
    }
  }

  method Alpha16Colour(dest: array<byte>, doff: nat, src: array<byte>, soff: nat, x: nat)
    requires dest != src && doff + 8 * x <= dest.Length && soff + 6 * x <= src.Length
    modifies dest
    ensures dest[doff..doff + 8 * x] == WithAlpha(Swapped(src[soff..soff + 6 * x], 3 * x), x, 6, 2)
    ensures OnlyRow(dest, doff, 8 * x)
  {
    hide Swapped, Opaque, WithAlpha;
    ghost var row := src[soff..soff + 6 * x];
    assert WithAlpha(Swapped(row, 3 * x), 0, 6, 2) == [];
    for i := 0 to x
      invariant dest[doff..doff + 8 * i] == WithAlpha(Swapped(row, 3 * x), i, 6, 2)
      invariant OnlyRow(dest, doff, 8 * x)
    {
      Colour16Is(row, x, i);
      AlphaStep(Swapped(row, 3 * x), i, 6, 2);
      Pixel16(dest, doff, doff + 8 * i, src, soff + 6 * i);
    }
  }

  method Grey16(dest: array<byte>, ghost start: nat, d: nat, src: array<byte>, s: nat)
    requires dest != src && start <= d && d + 4 <= dest.Length && s + 2 <= src.Length
    modifies dest
    ensures dest[start..d + 4] == old(dest[start..d]) + [src[s + 1], src[s], 255, 255]
    ensures OnlyRow(dest, d, 4)
  {
    Store16(dest, d, src, s);
    dest[d + 2] := 255;
    dest[d + 3] := 255;
  }

  method Pixel16(dest: array<byte>, ghost start: nat, d: nat, src: array<byte>, s: nat)
    requires dest != src && start <= d && d + 8 <= dest.Length && s + 6 <= src.Length
    modifies dest
    ensures dest[start..d + 8] == old(dest[start..d])
            + [src[s + 1], src[s], src[s + 3], src[s + 2], src[s + 5], src[s + 4], 255, 255]
    ensures OnlyRow(dest, d, 8)
  {
    Store16(dest, d, src, s);
    Store16(dest, d + 2, src, s + 2);
    Store16(dest, d + 4, src, s + 4);
    dest[d + 6] := 255;
    dest[d + 7] := 255;
  }

  /** A reconstructed row into its output bytes. */
  method ExpandRow(dest: array<byte>, doff: nat, row: array<byte>, roff: nat, x: nat, img_n: nat, out_n: nat,
        depth: nat, color: nat)
    requires Layout(img_n, out_n) && Depth(depth) && dest != row
    requires roff + RowBytes(img_n, x, depth) <= row.Length && doff + OutBytes(out_n, depth) * x <= dest.Length
    modifies dest
    ensures dest[doff..doff + OutBytes(out_n, depth) * x]
            == RowOut(row[roff..roff + RowBytes(img_n, x, depth)], x, img_n, out_n, depth, color)
    ensures OnlyRow(dest, doff, OutBytes(out_n, depth) * x)
  {
    hide RowOut;
    if depth < 8 {
      ExpandLow(dest, doff, row, roff, x, img_n, out_n, depth, color);
    } else if depth == 8 {
      Expand8(dest, doff, row, roff, x, img_n, out_n, color);
    } else {
      ExpandHigh(dest, doff, row, roff, x, img_n, out_n, color);
    }
  }

  method ExpandLow(dest: array<byte>, doff: nat, row: array<byte>, roff: nat, x: nat, img_n: nat, out_n: nat,
        depth: nat, color: nat)
    requires Layout(img_n, out_n) && (depth == 1 || depth == 2 || depth == 4) && dest != row
    requires roff + RowBytes(img_n, x, depth) <= row.Length && doff + out_n * x <= dest.Length
    modifies dest
    ensures dest[doff..doff + out_n * x]
            == RowOut(row[roff..roff + RowBytes(img_n, x, depth)], x, img_n, out_n, depth, color)
    ensures OnlyRow(dest, doff, out_n * x)
  {
    hide WithAlpha, Samples, Swapped, RowBytes;
    ghost var w := RowBytes(img_n, x, depth);
    RowHolds(w, x, img_n, depth);
    var nsmp := img_n * x;
    Product(img_n, out_n, x);
    UnpackRow(dest, doff, row, roff, w, nsmp, depth, color);
    if img_n != out_n {
      AlphaExpand8(dest, doff, dest, doff, x, img_n);
    }
  }

  method Expand8(dest: array<byte>, doff: nat, row: array<byte>, roff: nat, x: nat, img_n: nat, out_n: nat,
        ghost color: nat)
    requires Layout(img_n, out_n) && dest != row
    requires roff + RowBytes(img_n, x, 8) <= row.Length && doff + out_n * x <= dest.Length
    modifies dest
    ensures dest[doff..doff + out_n * x]
            == RowOut(row[roff..roff + RowBytes(img_n, x, 8)], x, img_n, out_n, 8, color)
    ensures OnlyRow(dest, doff, out_n * x)
  {
    hide WithAlpha, Samples, Swapped, RowBytes;
    RowHolds(RowBytes(img_n, x, 8), x, img_n, 8);
    WholeSamples(row[roff..roff + img_n * x], color);
    if img_n == out_n {
      CopyRow(dest, doff, row, roff, img_n * x);
    } else {
      AlphaExpand8(dest, doff, row, roff, x, img_n);
    }
  }

  method ExpandHigh(dest: array<byte>, doff: nat, row: array<byte>, roff: nat, x: nat, img_n: nat, out_n: nat,
        ghost color: nat)
    requires Layout(img_n, out_n) && dest != row
    requires roff + RowBytes(img_n, x, 16) <= row.Length && doff + out_n * 2 * x <= dest.Length
    modifies dest
    ensures dest[doff..doff + out_n * 2 * x]
            == RowOut(row[roff..roff + RowBytes(img_n, x, 16)], x, img_n, out_n, 16, color)
    ensures OnlyRow(dest, doff, out_n * 2 * x)
  {
    hide WithAlpha, Samples, Swapped, RowBytes;
    RowHolds(RowBytes(img_n, x, 16), x, img_n, 16);
    var nsmp := img_n * x;
    if img_n == out_n {
      assert 2 * nsmp == out_n * 2 * x;
      Copy16(dest, doff, row, roff, nsmp);
    } else if img_n == 1 {
      Alpha16Grey(dest, doff, row, roff, x);
    } else {
      Alpha16Colour(dest, doff, row, roff, x);
    }
  }

  lemma WholeSamples(r: seq<byte>, color: nat)
    ensures Samples(r, 8, color, |r|) == r
  {}

  // ----- one (sub)image -----

  /** The image being decoded: `stbi__png` with the fields it shares with its context. */
  class Image {
    const img_x: nat
    const img_y: nat
    const img_n: nat
    var out: array<byte>

    constructor (x: nat, y: nat, n: nat)
      ensures img_x == x && img_y == y && img_n == n
    {
      img_x, img_y, img_n := x, y, n;
      out := new byte[0];
    }

    /** `stbi__create_png_image_raw`: unfilter and expand every row of a (sub)image. */
    method CreateImageRaw(raw: seq<byte>, out_n: nat, x: nat, y: nat, depth: nat, color: nat) returns (ok: bool)
      requires Layout(img_n, out_n) && Depth(depth) && 1 <= x && 1 <= y <= MAX_DIMENSIONS
      modifies this
      ensures fresh(out) || out == old(out)
      ensures ok ==> fresh(out)
      ensures var w := RowBytes(img_n, x, depth);
              ok <==> SizesOk(x, y, img_n, out_n, depth) && RowStart(w, y) <= |raw| && FiltersOk(raw, w, y)
      ensures ok ==> out[..] == ImageOut(raw, x, img_n, out_n, depth, color, y)
    {
      hide RowOut, ReconRow;
      var output_bytes := OutBytes(out_n, depth);
      if !Mad3Valid(x, y, output_bytes, 0) { return false; }
      out := new byte[x * y * output_bytes];
      if !Mad3Valid(img_n, x, depth, 7) { return false; }
      var w := RowBytes(img_n, x, depth);
      if !Mad2Valid(w, y, w) { return false; }
      var img_len := (w + 1) * y;
      RowStartIsProduct(w, y);
      if |raw| < img_len { return false; }
      if !Mad2Valid(w, 2, 0) { return false; }
      ImageLengthFits(x, y, img_n, out_n, depth);
      var filter_buf := new byte[w * 2];
      ok := DecodeRows(filter_buf, raw, out_n, x, y, w, depth, color);
    }

    /** Every scanline in turn, the two halves of the buffer alternating. */
    method DecodeRows(filter_buf: array<byte>, raw: seq<byte>, out_n: nat, x: nat, y: nat, w: nat, depth: nat,
          color: nat) returns (ok: bool)
      requires Layout(img_n, out_n) && Depth(depth) && 1 <= x && w == RowBytes(img_n, x, depth)
      requires filter_buf.Length == w * 2 && filter_buf != out && out.Length == x * y * OutBytes(out_n, depth)
      requires RowStart(w, y) <= |raw|
      modifies filter_buf, out
      ensures ok <==> FiltersOk(raw, w, y)
      ensures ok ==> out[..] == ImageOut(raw, x, img_n, out_n, depth, color, y)
    {
      hide RowOut, ReconRow, RowBytes, ImageOut, HoldsRow, OutBytes, FilterBytes;
      var stride := OutBytes(out_n, depth) * x;
      ImageOutNone(raw, x, img_n, out_n, depth, color);
      StrideTotal(x, y, OutBytes(out_n, depth));
      RowWide(x, img_n, depth);
      var bpp := FilterBytes(img_n, depth);
      var off := 0;
      for j := 0 to y
        invariant off == RowStart(w, j) && RowStart(w, j) <= |raw| && stride * j <= out.Length
        invariant forall k :: 0 <= k < j ==> RowStart(w, k) < |raw| && raw[RowStart(w, k)] <= 4
        invariant out[..stride * j] == ImageOut(raw, x, img_n, out_n, depth, color, j)
        invariant j > 0 ==> HoldsRow(filter_buf, raw, w, bpp, j - 1)
      {
        RowStartMono(w, j + 1, y);
        ProductStep(stride, j, y);
        ImageOutNext(raw, x, img_n, out_n, depth, color, w, bpp, j);
        if raw[off] > 4 { return false; }
        UnfilterNext(filter_buf, raw, off, j, w, bpp);
        HeldRow(filter_buf, raw, w, bpp, j);
        AppendRow(out, stride * j, stride, filter_buf, if j % 2 == 0 then 0 else w, x, img_n, out_n, w, depth, color);
        assert stride * (j + 1) == stride * j + stride;
        off := off + 1 + w;
      }
      ok := true;
      assert out[..] == out[..stride * y];
    }

    /** `stbi__create_png_image`: the image itself, or its seven passes put in their places. */
    method CreateImage(data: seq<byte>, out_n: nat, depth: nat, color: nat, interlaced: bool) returns (ok: bool)
      requires Layout(img_n, out_n) && Depth(depth) && 1 <= img_x <= MAX_DIMENSIONS && 1 <= img_y <= MAX_DIMENSIONS
      modifies this
      ensures fresh(out) || out == old(out)
      ensures !interlaced ==> (ok <==> Readable(data, img_n, out_n, depth, img_x, img_y))
      ensures !interlaced && ok ==> out[..] == ImageOut(data, img_x, img_n, out_n, depth, color, img_y)
      ensures interlaced ==>
                (ok <==> Mad3Valid(img_x, img_y, OutBytes(out_n, depth), 0)
                         && PassesOk(data, img_n, out_n, depth, img_x, img_y, PASSES))
      ensures interlaced && ok ==>
                out.Length == img_x * img_y * OutBytes(out_n, depth)
                && forall p :: 0 <= p < PASSES ==>
                     Placed(out[..], PassOut(data, img_n, out_n, depth, color, img_x, img_y, p),
                            img_x, img_y, OutBytes(out_n, depth), p, PassH(img_y, p), 0)
    {
      hide ImageOut, Placed, PassOut, PassOk, Mad3Valid, OutBytes;
      if !interlaced {
        ok := CreateImageRaw(data, out_n, img_x, img_y, depth, color);
        return;
      }
      ok := Deinterlace(data, out_n, depth, color);
    }

    /** The seven passes of an interlaced image. */
    method Deinterlace(data: seq<byte>, out_n: nat, depth: nat, color: nat) returns (ok: bool)
      requires Layout(img_n, out_n) && Depth(depth) && img_x <= MAX_DIMENSIONS && img_y <= MAX_DIMENSIONS
      modifies this
      ensures fresh(out) || out == old(out)
      ensures ok <==> Mad3Valid(img_x, img_y, OutBytes(out_n, depth), 0)
                      && PassesOk(data, img_n, out_n, depth, img_x, img_y, PASSES)
      ensures ok ==>
                out.Length == img_x * img_y * OutBytes(out_n, depth)
                && forall p :: 0 <= p < PASSES ==>
                     Placed(out[..], PassOut(data, img_n, out_n, depth, color, img_x, img_y, p),
                            img_x, img_y, OutBytes(out_n, depth), p, PassH(img_y, p), 0)
    {
      hide ImageOut, Placed, PassOut, PassOk, Mad3Valid, OutBytes, OthersKept, PassH, PassW;
      var out_bytes := OutBytes(out_n, depth);
      if !Mad3Valid(img_x, img_y, out_bytes, 0) { return false; }
      var final := new byte[img_x * img_y * out_bytes];
      var off := 0;
      for p := 0 to PASSES
        invariant fresh(final) && final.Length == img_x * img_y * out_bytes
        invariant fresh(out) || out == old(out)
        invariant PassesOk(data, img_n, out_n, depth, img_x, img_y, p)
        invariant off == PassStart(img_n, depth, img_x, img_y, p) && off <= |data|
        invariant forall q :: 0 <= q < p ==>
                    Placed(final[..], PassOut(data, img_n, out_n, depth, color, img_x, img_y, q),
                           img_x, img_y, out_bytes, q, PassH(img_y, q), 0)
      {
        ghost var before := final[..];
        var good;
        good, off := DecodePass(final, data, off, out_n, depth, color, p);
        if !good { return false; }
        forall q | 0 <= q < p
          ensures Placed(final[..], PassOut(data, img_n, out_n, depth, color, img_x, img_y, q),
                         img_x, img_y, out_bytes, q, PassH(img_y, q), 0)
        {
          PlacedKept(final[..], before, PassOut(data, img_n, out_n, depth, color, img_x, img_y, q),
                     img_x, img_y, out_bytes, p, q, PassH(img_y, q));
        }
      }
      out := final;
      ok := true;
    }

    /** One pass: decode it as an image of its own and place its pixels; an empty pass is skipped. */
    method DecodePass(final: array<byte>, data: seq<byte>, off: nat, out_n: nat, depth: nat, color: nat,
          p: nat) returns (ok: bool, off': nat)
      requires Layout(img_n, out_n) && Depth(depth) && p < PASSES && img_x <= MAX_DIMENSIONS && img_y <= MAX_DIMENSIONS
      requires final.Length == img_x * img_y * OutBytes(out_n, depth)
      requires off == PassStart(img_n, depth, img_x, img_y, p) && off <= |data|
      modifies this, final
      ensures fresh(out) || out == old(out)
      ensures ok <==> PassOk(data, img_n, out_n, depth, img_x, img_y, p)
      ensures ok ==> off' == PassStart(img_n, depth, img_x, img_y, p + 1) && off' <= |data|
      ensures ok ==>
                var b := OutBytes(out_n, depth);
                Placed(final[..], PassOut(data, img_n, out_n, depth, color, img_x, img_y, p),
                       img_x, img_y, b, p, PassH(img_y, p), 0)
                && OthersKept(final[..], old(final[..]), img_x, img_y, b, p)
    {
      hide Placed, OthersKept, Readable, PassOut, RowStart, OutBytes;
      PassSizes(img_x, img_y, p);
      var x := (img_x - XOrig(p) + XSpc(p) - 1) / XSpc(p);
      var y := (img_y - YOrig(p) + YSpc(p) - 1) / YSpc(p);
      off' := off;
      if x != 0 && y != 0 {
        ok := DecodeSomePass(final, data[off..], out_n, depth, color, p, x, y);
        if !ok { return; }
        PassOutIs(data, img_n, out_n, depth, color, img_x, img_y, p);
        off' := off + RowStart(RowBytes(img_n, x, depth), y);
      } else {
        NothingPlaced(final[..], img_x, img_y, OutBytes(out_n, depth), p);
        PassOutIs(data, img_n, out_n, depth, color, img_x, img_y, p);
        ok := true;
      }
    }

    /** A pass that has pixels. */
    method DecodeSomePass(final: array<byte>, data: seq<byte>, out_n: nat, depth: nat, color: nat, p: nat, x: nat,
          y: nat) returns (ok: bool)
      requires Layout(img_n, out_n) && Depth(depth) && p < PASSES && img_x <= MAX_DIMENSIONS && img_y <= MAX_DIMENSIONS
      requires x == PassW(img_x, p) > 0 && y == PassH(img_y, p) > 0
      requires final.Length == img_x * img_y * OutBytes(out_n, depth)
      modifies this, final
      ensures fresh(out) || out == old(out)
      ensures ok <==> Readable(data, img_n, out_n, depth, x, y)
      ensures Readable(data, img_n, out_n, depth, x, y) ==> RowStart(RowBytes(img_n, x, depth), y) <= |data|
      ensures ok ==>
                var b := OutBytes(out_n, depth);
                Placed(final[..], ImageOut(data, x, img_n, out_n, depth, color, y), img_x, img_y, b, p, y, 0)
                && OthersKept(final[..], old(final[..]), img_x, img_y, b, p)
    {
      hide ImageOut, Placed, OthersKept, SizesOk, FiltersOk, OutBytes, RowStart, RowBytes, PassW, PassH;
      PassWithin(img_x, img_y, p);
      ok := CreateImageRaw(data, out_n, x, y, depth, color);
      if !ok { return; }
      ImageOutLength(data, x, img_n, out_n, depth, color, y);
      PlacePass(final, out, img_x, img_y, OutBytes(out_n, depth), p, x, y);
    }
  }

  /** Row `j` is in its half of the filter buffer. */
  ghost predicate HoldsRow(buf: array<byte>, raw: seq<byte>, w: nat, bpp: nat, j: nat)
    requires buf.Length == w * 2 && bpp > 0 && RowStart(w, j + 1) <= |raw|
    reads buf
  {
    var cur := if j % 2 == 0 then 0 else w;
    buf[cur..cur + w] == ReconRow(raw, w, bpp, j)
  }

  lemma HeldRow(buf: array<byte>, raw: seq<byte>, w: nat, bpp: nat, j: nat)
    requires buf.Length == w * 2 && bpp > 0 && RowStart(w, j + 1) <= |raw| && HoldsRow(buf, raw, w, bpp, j)
    ensures var cur := if j % 2 == 0 then 0 else w; buf[cur..cur + w] == ReconRow(raw, w, bpp, j)
  {}

  lemma ImageOutNone(raw: seq<byte>, x: nat, img_n: nat, out_n: nat, depth: nat, color: nat)
    requires Layout(img_n, out_n) && Depth(depth)
    ensures ImageOut(raw, x, img_n, out_n, depth, color, 0) == []
  {}

  lemma ImageOutNext(raw: seq<byte>, x: nat, img_n: nat, out_n: nat, depth: nat, color: nat, w: nat, bpp: nat, j: nat)
    requires Layout(img_n, out_n) && Depth(depth) && w == RowBytes(img_n, x, depth) && bpp == FilterBytes(img_n, depth)
    requires RowStart(w, j) <= RowStart(w, j + 1) <= |raw|
    ensures ImageOut(raw, x, img_n, out_n, depth, color, j + 1)
            == ImageOut(raw, x, img_n, out_n, depth, color, j)
               + RowOut(ReconRow(raw, w, bpp, j), x, img_n, out_n, depth, color)
  {}

  /** Reconstruct scanline `j` in one half of the buffer from the previous one in the other. */
  method UnfilterNext(buf: array<byte>, raw: seq<byte>, off: nat, j: nat, w: nat, bpp: nat)
    requires buf.Length == w * 2 && 0 < bpp <= w
    requires off == RowStart(w, j) && RowStart(w, j + 1) <= |raw| && raw[off] <= 4
    requires j > 0 ==> HoldsRow(buf, raw, w, bpp, j - 1)
    modifies buf
    ensures HoldsRow(buf, raw, w, bpp, j)
  {
    hide Recon;
    var cur := if j % 2 == 0 then 0 else w;
    var prior := if j % 2 == 0 then w else 0;
    UnfilterRow(buf, cur, prior, raw, off + 1, bpp, w, raw[off], j == 0);
  }

  /** Expand a reconstructed row behind the rows already placed. */
  method AppendRow(out: array<byte>, at: nat, stride: nat, buf: array<byte>, cur: nat, x: nat, img_n: nat,
        out_n: nat, ghost w: nat, depth: nat, color: nat)
    requires Layout(img_n, out_n) && Depth(depth) && out != buf && w == RowBytes(img_n, x, depth)
    requires cur + w <= buf.Length && stride == OutBytes(out_n, depth) * x && at + stride <= out.Length
    modifies out
    ensures out[..at + stride] == old(out[..at]) + RowOut(buf[cur..cur + w], x, img_n, out_n, depth, color)
  {
    hide RowOut, RowBytes;
    ghost var done := out[..at];
    ExpandRow(out, at, buf, cur, x, img_n, out_n, depth, color);
    assert out[..at] == done;
    assert out[..at + stride] == done + out[at..at + stride];
  }

  lemma PassWithin(w: nat, h: nat, p: nat)
    requires p < PASSES
    ensures PassW(w, p) <= w && PassH(h, p) <= h
  {}

  lemma PassOutIs(data: seq<byte>, img_n: nat, out_n: nat, depth: nat, color: nat, w: nat, h: nat, p: nat)
    requires Layout(img_n, out_n) && Depth(depth) && p < PASSES && PassOk(data, img_n, out_n, depth, w, h, p)
    ensures PassOut(data, img_n, out_n, depth, color, w, h, p) ==
            if PassW(w, p) > 0 && PassH(h, p) > 0 then
              ImageOut(data[PassStart(img_n, depth, w, h, p)..], PassW(w, p), img_n, out_n, depth, color, PassH(h, p))
            else []
  {}

  /** A pass without rows or columns carries no pixel. */
  lemma NothingPlaced(final: seq<byte>, w: nat, h: nat, b: nat, p: nat)
    requires p < PASSES && (PassW(w, p) == 0 || PassH(h, p) == 0)
    ensures Placed(final, [], w, h, b, p, PassH(h, p), 0)
    ensures OthersKept(final, final, w, h, b, p)
  {
    forall x: nat, y: nat | x < w && y < h && PassOf(x, y) == p
      ensures false
    {
      PixelPass(w, h, x, y);
    }
  }

  lemma {:induction false} ImageOutLength(raw: seq<byte>, x: nat, img_n: nat, out_n: nat, depth: nat, color: nat,
        y: nat)
    requires Layout(img_n, out_n) && Depth(depth) && RowStart(RowBytes(img_n, x, depth), y) <= |raw|
    ensures |ImageOut(raw, x, img_n, out_n, depth, color, y)| == x * y * OutBytes(out_n, depth)
  {
    hide RowOut, ReconRow, RowBytes, OutBytes;
    var b := OutBytes(out_n, depth);
    if y > 0 {
      var w := RowBytes(img_n, x, depth);
      ImageOutLength(raw, x, img_n, out_n, depth, color, y - 1);
      RowOutLength(ReconRow(raw, w, FilterBytes(img_n, depth), y - 1), x, img_n, out_n, depth, color);
      AreaStep(x, y, b);
    }
  }

  lemma AreaStep(x: nat, y: nat, b: nat)
    requires y > 0
    ensures x * y * b == x * (y - 1) * b + b * x
  {
    assert x * y == x * (y - 1) + x;
    assert (x * (y - 1) + x) * b == x * (y - 1) * b + x * b;
  }

  /** Copy pixel `ks` of one image to pixel `kd` of another. */
  method CopyPixel(dest: array<byte>, kd: nat, src: array<byte>, ks: nat, b: nat)
    requires dest != src && b * kd + b <= dest.Length && b * ks + b <= src.Length
    modifies dest
    ensures PixelAt(dest[..], b, kd) == PixelAt(src[..], b, ks)
    ensures forall l: nat :: l != kd ==> PixelAt(dest[..], b, l) == old(PixelAt(dest[..], b, l))
  {
    ghost var before := dest[..];
    CopyRow(dest, b * kd, src, b * ks, b);
    forall l: nat | l != kd ensures PixelAt(dest[..], b, l) == PixelAt(before, b, l) {
      PixelsApart(b, l, kd);
    }
  }

  /** The two loops that spread a pass over the image. */
  method PlacePass(final: array<byte>, src: array<byte>, w: nat, h: nat, b: nat, p: nat, x: nat, y: nat)
    requires p < PASSES && x == PassW(w, p) && y == PassH(h, p) && final != src
    requires final.Length == w * h * b && src.Length == x * y * b
    modifies final
    ensures Placed(final[..], src[..], w, h, b, p, y, 0)
    ensures OthersKept(final[..], old(final[..]), w, h, b, p)
  {
    ghost var first := final[..];
    for j := 0 to y
      invariant Placed(final[..], src[..], w, h, b, p, j, 0)
      invariant OthersKept(final[..], first, w, h, b, p)
    {
      PlaceRow(final, src, w, h, b, p, x, y, j, first);
    }
  }

  method PlaceRow(final: array<byte>, src: array<byte>, w: nat, h: nat, b: nat, p: nat, x: nat, y: nat, j: nat,
        ghost first: seq<byte>)
    requires p < PASSES && x == PassW(w, p) && y == PassH(h, p) && final != src && j < y
    requires final.Length == w * h * b && src.Length == x * y * b
    requires Placed(final[..], src[..], w, h, b, p, j, 0) && OthersKept(final[..], first, w, h, b, p)
    modifies final
    ensures Placed(final[..], src[..], w, h, b, p, j + 1, 0)
    ensures OthersKept(final[..], first, w, h, b, p)
  {
    hide Placed, OthersKept, PixelAt, PassW, PassH;
    for i := 0 to x
      invariant Placed(final[..], src[..], w, h, b, p, j, i)
      invariant OthersKept(final[..], first, w, h, b, p)
    {
      ghost var before := final[..];
      PassPixel(w, h, p, i, j);
      var out_y := j * YSpc(p) + YOrig(p);
      var out_x := i * XSpc(p) + XOrig(p);
      IndexInside(w, h, out_x, out_y, b);
      IndexInside(x, y, i, j, b);
      CopyPixel(final, Index(w, out_x, out_y), src, Index(x, i, j), b);
      PlaceStep(final[..], before, first, src[..], w, h, b, p, j, i);
    }
    PlaceRowEnd(final[..], src[..], w, h, b, p, j);
  }

  lemma StrideTotal(x: nat, y: nat, b: nat)
    ensures x * y * b == b * x * y
  {
    assert x * y * b == b * (x * y);
  }

  /** A row is at least one filter unit wide. */
  lemma RowWide(x: nat, img_n: nat, depth: nat)
    requires Depth(depth) && 1 <= x && 1 <= img_n
    ensures FilterBytes(img_n, depth) <= RowBytes(img_n, x, depth)
  {
    Product(1, x, img_n);
    assert img_n * x == x * img_n;
  }
}
