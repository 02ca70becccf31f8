/** The JPEG entropy decoder as the program runs it. */
module JpegReader {
  import opened Bits
  import opened Canonical
  import opened Context
  import opened Slots
  import opened JpegHuffman
  import opened JpegTable
  import opened JpegBits
  import opened JpegBlock

  /** `stbi__build_fast_ac`. */
  method BuildFastAc(h: Huffman) returns (fast_ac: array<int>)
    requires h.Valid()
    ensures fresh(fast_ac) && fast_ac.Length == FAST_SIZE
    ensures forall c {:trigger fast_ac[c]} :: 0 <= c < FAST_SIZE ==> fast_ac[c] == FastAc(h.lens, h.values[..], c)
  {
    hide FastEntry, Shl, Shr, Low, Fits, Huffman.Codes, Huffman.Bounds;
    fast_ac := new int[FAST_SIZE](_ => 0);
    for i := 0 to FAST_SIZE
      invariant forall c {:trigger fast_ac[c]} :: 0 <= c < i ==> fast_ac[c] == FastAc(h.lens, h.values[..], c)
    {
      EntrySymbol(h, i);
      var fast := h.fast[i];
      fast_ac[i] := 0;
      if fast < 255 {
        var rs := h.values[fast];
        var run, magbits, len := rs / 16, rs % 16, h.size[fast];
        if magbits != 0 && len + magbits <= FAST_BITS {
          var k: int := Shr(Low(Shl(i, len), FAST_BITS), FAST_BITS - magbits);
          var m := Shl(1, magbits - 1);
          if k < m { k := k + (1 - Shl(1, magbits)); }
          if k >= -128 && k <= 127 {
            fast_ac[i] := k * 256 + run * 16 + (len + magbits);
          }
        }
      }
    }
  }

  lemma EntrySymbol(h: Huffman, c: nat)
    requires h.Valid() && c < FAST_SIZE
    ensures h.fast[c] == FastEntry(h.lens, |h.lens|, c)
    ensures h.fast[c] < |h.lens| || h.fast[c] == NOT_ACCELERATED
    ensures h.fast[c] < |h.lens| ==> h.size[h.fast[c]] == h.lens[h.fast[c]]
  {
    FastEntryIs(h.lens, |h.lens|, c);
  }

  /** `STBI__MARKER_none`. */
  const NO_MARKER: byte := 255

  datatype AcOutcome = More | Ended | Refused

  /** The entropy decoder's part of `stbi__jpeg`. */
  class Reader {
    const s: Source
    const dc_pred: array<int>
    var code_buffer: nat
    var code_bits: int
    var marker: byte
    var nomore: bool
    /** The entropy-coded bytes up to the next marker, what ends them, and how many of them, or zeros
        after them, were taken. */
    ghost var ent: seq<byte>
    ghost var stop: Stop
    ghost var fed: nat

    ghost function Pos(): int
      reads this
    {
      8 * fed - code_bits
    }

    /** After `f` bytes what is still to come is the rest of the entropy-coded bytes, then zeros. */
    ghost predicate Ahead(f: nat)
      reads `nomore, `marker, `ent, `stop, s
    {
      if nomore then f >= |ent| && stop == Marker(marker, s.img_buffer)
      else if f <= |ent| then
        marker == NO_MARKER && ent[f..] == Entropy(s.data, s.img_buffer) && stop == StopAt(s.data, s.img_buffer)
      else marker == NO_MARKER && s.img_buffer >= |s.data| && stop == EndOfFile
    }

    ghost predicate Valid(): (v: bool)
      reads this, s
      ensures v ==> 0 <= code_bits <= WORD && 0 <= Pos()
    {
      0 <= code_bits <= WORD && 0 <= Pos() && Ahead(fed) && Buffered(code_buffer, ent, Pos(), code_bits)
    }

    /** At the start of a scan. */
    constructor (source: Source)
      ensures Valid() && Pos() == 0 && s == source && ent == Entropy(source.data, source.img_buffer)
      ensures stop == StopAt(source.data, source.img_buffer)
      ensures fresh(dc_pred) && dc_pred.Length == 4 && code_bits == 0
    {
      s := source;
      dc_pred := new int[4](_ => 0);
      code_buffer, code_bits, marker, nomore := 0, 0, NO_MARKER, false;
      ent, fed := Entropy(source.data, source.img_buffer), 0;
      stop := StopAt(source.data, source.img_buffer);
      new;
      EmptyBuffer(ent);
      assert ent[0..] == ent;
    }

    /** The next byte without its stuffing. `found` tells of a marker instead. */
    method NextByte() returns (b: nat, found: bool)
      requires Ahead(fed)
      modifies `marker, `nomore, s
      ensures found ==> nomore && fed == |ent| && Ahead(fed)
      ensures !found ==> b == (if fed < |ent| then ent[fed] else 0) && b < 256 && Ahead(fed + 1)
    {
      hide Entropy, StopAt, AfterFill;
      b, found := 0, false;
      if nomore { return; }
      ghost var at := s.img_buffer;
      EntropyStep(s.data, at);
      b := s.Get8();
      if b == 255 {
        var c := s.Get8();
        ghost var q := at + 1;
        while c == 255
          invariant !nomore && marker == old(marker) && q > at && c == Peek(s.data, q)
                    && s.img_buffer == Next(s.data, q, 1)
          invariant AfterFill(s.data, q) == AfterFill(s.data, at + 1)
          decreases |s.data| - q
        {
          FillStep(s.data, q);
          c := s.Get8();
          q := q + 1;
        }
        FillStep(s.data, q);
        if c != 0 {
          marker := c;
          nomore := true;
          found := true;
        }
      }
      if !found && at < |s.data| { TakeFirst(ent, fed, b, Entropy(s.data, s.img_buffer)); }
    }

    /** `stbi__grow_buffer_unsafe`: at least 25 bits, unless a marker comes first. */
    method GrowBuffer()
      requires Valid() && code_bits <= 24
      modifies `code_buffer, `code_bits, `marker, `nomore, `fed, s
      ensures Valid() && Pos() == old(Pos()) && code_bits >= old(code_bits)
      ensures code_bits > 24 || (nomore && Pos() + code_bits >= 8 * |ent|)
    {
      hide Buffered, Reader.Ahead, Or, Shl;
      var more := true;
      while more
        invariant Valid() && Pos() == old(Pos()) && code_bits >= old(code_bits)
        invariant more ==> code_bits <= 24
        invariant !more ==> code_bits > 24
        decreases 32 - code_bits, more
      {
        var b, found := NextByte();
        if found { return; }
        BufferAppend(code_buffer, ent, fed, code_bits, b);
        code_buffer := Or(code_buffer, Shl(b, 24 - code_bits));
        code_bits := code_bits + 8;
        fed := fed + 1;
        more := code_bits <= 24;
      }
    }

    /** The decode methods fill the buffer only when it runs low. */
    method Fill(n: nat)
      requires Valid() && n <= 24
      modifies `code_buffer, `code_bits, `marker, `nomore, `fed, s
      ensures Valid() && Pos() == old(Pos()) && code_bits >= old(code_bits)
      ensures code_bits >= n || Pos() + code_bits >= 8 * |ent|
    {
      if code_bits < n { GrowBuffer(); }
    }

    /** Drop `n` bits. */
    method Consume(n: nat)
      requires Valid() && n <= code_bits
      modifies `code_buffer, `code_bits
      ensures Valid() && Pos() == old(Pos()) + n && code_bits == old(code_bits) - n
    {
      hide Buffered, Reader.Ahead, Low, Shl;
      BufferDrop(code_buffer, ent, Pos(), code_bits, n);
      code_buffer := Low(Shl(code_buffer, n), WORD);
      code_bits := code_bits - n;
    }

    /** `stbi__jpeg_huff_decode`. */
    method HuffDecode(h: Huffman) returns (r: int)
      requires Valid() && h.Valid()
      modifies `code_buffer, `code_bits, `marker, `nomore, `fed, s
      ensures r < 256 && h.Valid()
      ensures var f := Found(h.lens, Top(ent, old(Pos()), 16));
              if r >= 0 then
                f.Some? && r == h.values[f.value.id] && Valid() && Pos() == old(Pos()) + f.value.size
              else r == -1 && (f.None? || old(Pos()) + f.value.size > 8 * |ent|)
    {
      hide Reader.Ahead, Buffered, Huffman.Valid, Found, Shr, Low, Top;
      Fill(16);
      BufferTop(code_buffer, ent, Pos(), code_bits, 16);
      BufferTop(code_buffer, ent, Pos(), code_bits, 9);
      ghost var w := Top(ent, Pos(), 16);
      TopPrefix(ent, Pos(), 9, 16);
      var c := Low(Shr(code_buffer, 32 - FAST_BITS), FAST_BITS);
      TopBound(ent, Pos(), 9);
      SmallLow(Top(ent, Pos(), 9), 9);
      SmallPowers();
      FastFind(h, w);
      var k := h.fast[c];
      if k < 255 {
        var s := h.size[k];
        if s > code_bits { return -1; }
        Consume(s);
        return h.values[k];
      }
      r := SlowDecode(h, w);
    }

    /** The search by length. */
    method SlowDecode(h: Huffman, ghost w: nat) returns (r: int)
      requires Valid() && h.Valid() && w == Top(ent, Pos(), 16) && (code_bits >= 16 || Pos() + code_bits >= 8 * |ent|)
      requires FastEntry(h.lens, |h.lens|, Shr(w, 7)) >= NOT_ACCELERATED
      modifies `code_buffer, `code_bits
      ensures r < 256 && h.Valid()
      ensures var f := Found(h.lens, w);
              if r >= 0 then
                f.Some? && r == h.values[f.value.id] && Valid() && Pos() == old(Pos()) + f.value.size
              else r == -1 && (f.None? || old(Pos()) + f.value.size > 8 * |ent|)
    {
      hide Reader.Ahead, Buffered, Huffman.Valid, Shr, Low, Top, FastEntry, FirstSlot, FirstCode, Bound, SlowSize;
      BufferTop(code_buffer, ent, Pos(), code_bits, 16);
      TopBound(ent, Pos(), 16);
      var temp := Shr(code_buffer, 16);
      var k := FindSize(h, temp);
      if k == 17 {
        code_bits := code_bits - 16;
        return -1;
      }
      if k > code_bits { return -1; }
      SizeNumbers(h, k);
      BufferTop(code_buffer, ent, Pos(), code_bits, k);
      TopBound(ent, Pos(), k);
      SmallLow(Top(ent, Pos(), k), k);
      TopPrefix(ent, Pos(), k, 16);
      var c := Low(Shr(code_buffer, 32 - k), k) + h.delta[k];
      if c < 0 || c >= 256 { return -1; }
      Consume(k);
      r := h.values[c];
    }

    /** `stbi__extend_receive`: the signed value of the next `n` bits, zeros behind the data included; or,
        past the end of the data, zero without moving on. */
    method ExtendReceive(n: nat) returns (r: int)
      requires Valid() && n <= 15
      modifies `code_buffer, `code_bits, `marker, `nomore, `fed, s
      ensures Valid()
      ensures (r == Extend(Top(ent, old(Pos()), n), n) && Pos() == old(Pos()) + n)
              || (r == 0 && Pos() == old(Pos()) && old(Pos()) + n > 8 * |ent|)
    {
      hide Reader.Ahead, Buffered, Shr, Shl, Low, Top, Lrot;
      Fill(n);
      if code_bits < n { return 0; }
      var sgn := Shr(code_buffer, 31);
      var k := Lrot(code_buffer, n);
      BufferBound(code_buffer, ent, Pos(), code_bits);
      Rotated(code_buffer, n);
      BufferDrop(code_buffer, ent, Pos(), code_bits, n);
      BufferTop(code_buffer, ent, Pos(), code_bits, n);
      if n > 0 { BufferTop(code_buffer, ent, Pos(), code_bits, 1); }
      SignBit(ent, Pos(), n);
      code_buffer := k - Low(k, n);
      k := Low(k, n);
      code_bits := code_bits - n;
      r := k + (if sgn == 0 then 1 - Shl(1, n) else 0);
    }

    // ----- restart intervals -----

    /** At the end of an interval, less than a byte before what ends the entropy-coded bytes, the
        marker there has been read, if it is one. */
    method SeeMarker()
      requires Valid()
      modifies `code_buffer, `code_bits, `marker, `nomore, `fed, s
      ensures Valid() && Pos() == old(Pos())
      ensures Pos() + 8 > 8 * |ent| ==>
                match stop
                case Marker(code, next) => marker == code && s.img_buffer == next
                case EndOfFile => marker == NO_MARKER
    {
      hide Buffered;
      if code_bits < 24 { GrowBuffer(); }
    }

    /** `stbi__jpeg_reset`, for the part that reads: the interval starts where the file is read next. */
    method Reset()
      requires dc_pred.Length == 4
      modifies `code_buffer, `code_bits, `marker, `nomore, `ent, `stop, `fed, dc_pred
      ensures Valid() && Pos() == 0 && dc_pred[..] == [0, 0, 0, 0]
      ensures ent == Entropy(s.data, s.img_buffer) && stop == StopAt(s.data, s.img_buffer)
    {
      code_bits, code_buffer, nomore := 0, 0, false;
      dc_pred[0], dc_pred[1], dc_pred[2], dc_pred[3] := 0, 0, 0, 0;
      marker := NO_MARKER;
      ent, stop, fed := Entropy(s.data, s.img_buffer), StopAt(s.data, s.img_buffer), 0;
      EmptyBuffer(ent);
      assert ent[0..] == ent;
    }

    // ----- blocks -----

    /** What is assumed of the tables and buffers of one component. */
    ghost predicate Ready(data: array<int>, hac: Huffman, fac: array<int>, dequant: seq<nat>)
      reads hac, hac.fast, hac.code, hac.size, hac.maxcode, hac.delta, hac.values, fac
    {
      && hac.Valid() && data.Length == |dequant| == BLOCK && fac.Length == FAST_SIZE
      && data != fac && data != hac.delta
      && forall c {:trigger fac[c]} :: 0 <= c < FAST_SIZE ==> fac[c] == FastAc(hac.lens, hac.values[..], c)
    }

    /** The coefficients from the `k`-th on, if the code tells them within the entropy-coded bytes. */
    ghost predicate Telling(hac: Huffman, r: Coefs)
      reads hac, `ent
    {
      !Collides(hac.lens) && r.pos <= 8 * |ent|
    }

    /** One code of the combined table. */
    method FastStep(data: array<int>, hac: Huffman, fac: array<int>, dequant: seq<nat>, k: nat, r: int)
          returns (step: AcOutcome, k': nat)
      requires Valid() && Ready(data, hac, fac, dequant) && k < BLOCK
      requires code_bits >= 16 || Pos() + code_bits >= 8 * |ent|
      requires r != 0 && r == FastAc(hac.lens, hac.values[..], Top(ent, Pos(), FAST_BITS))
      modifies `code_buffer, `code_bits, data
      ensures Ready(data, hac, fac, dequant)
      ensures var ref := RefAc(ent, old(Pos()), hac.lens, hac.values[..], dequant, k, old(data[..]));
              match step
              case More =>
                Valid() && k < k' && ref == RefAc(ent, Pos(), hac.lens, hac.values[..], dequant, k', data[..])
              case Ended => false
              case Refused => !Telling(hac, ref)
    {
      hide Reader.Valid, Huffman.Valid, RefAc, Top, FastAc, Wanted, Dezigzag, Extend, Short;
      TableShape(hac);
      FastAcRight(ent, Pos(), hac.lens, hac.values[..]);
      AcStep(ent, Pos(), hac.lens, hac.values[..], dequant, k, data[..]);
      k' := k + r / 16 % 16;
      var s := r % 16;
      if s > code_bits { return Refused, k'; }
      ghost var was := data[..];
      Consume(s);
      var zig := Dezigzag(k');
      data[zig] := Short((r / 256) * dequant[zig]);
      assert data[..] == was[zig := Short((r / 256) * dequant[zig])];
      k' := k' + 1;
      step := More;
    }

    /** A code and its extra bits. */
    method SlowStep(data: array<int>, hac: Huffman, fac: array<int>, dequant: seq<nat>, k: nat)
          returns (step: AcOutcome, k': nat)
      requires Valid() && Ready(data, hac, fac, dequant) && k < BLOCK
      modifies `code_buffer, `code_bits, `marker, `nomore, `fed, s, data
      ensures Ready(data, hac, fac, dequant)
      ensures step.More? ==> Valid() && k < k'
      ensures step.Ended? ==> Valid()
      ensures var ref := RefAc(ent, old(Pos()), hac.lens, hac.values[..], dequant, k, old(data[..]));
              Telling(hac, ref) ==>
                match step
                case More => ref == RefAc(ent, Pos(), hac.lens, hac.values[..], dequant, k', data[..])
                case Ended => Valid() && ref == Coefs(Pos(), data[..])
                case Refused => ref.BadCode?
    {
      hide Reader.Valid, Reader.Ready, Huffman.Valid, Sorted, RefAc, Top, FastAc, Found, Wanted, Dezigzag, Extend,
           Short;
      ReadyShape(data, hac, fac, dequant);
      if !Collides(hac.lens) { FoundIsWanted(hac.lens, Top(ent, Pos(), 16)); }
      AcStep(ent, Pos(), hac.lens, hac.values[..], dequant, k, data[..]);
      k' := k;
      var rs := HuffDecode(hac);
      if rs < 0 { return Refused, k; }
      var s := rs % 16;
      var r := rs / 16;
      if s == 0 {
        if rs != 0xf0 { return Ended, k; }
        k' := k + 16;
      } else {
        k' := k + r;
        PlaceValue(data, hac, fac, dequant, k', s);
        k' := k' + 1;
      }
      step := More;
    }

    /** The extra bits of a coefficient and the store at its place. */
    method PlaceValue(data: array<int>, hac: Huffman, fac: array<int>, dequant: seq<nat>, at: nat, n: nat)
      requires Valid() && Ready(data, hac, fac, dequant) && at < 79 && n <= 15
      modifies `code_buffer, `code_bits, `marker, `nomore, `fed, s, data
      ensures Valid() && Ready(data, hac, fac, dequant)
      ensures old(Pos()) + n <= 8 * |ent| ==>
                Pos() == old(Pos()) + n
                && data[..] == old(data[..])[
                     Dezigzag(at) := Short(Extend(Top(ent, old(Pos()), n), n) * dequant[Dezigzag(at)])]
    {
      hide Reader.Valid, Huffman.Valid, Top, FastAc, Dezigzag, Extend, Short;
      ghost var was := data[..];
      var zig := Dezigzag(at);
      var v := ExtendReceive(n);
      data[zig] := Short(v * dequant[zig]);
      assert data[..] == was[zig := Short(v * dequant[zig])];
    }

    /** The loop over the AC coefficients. */
    method DecodeAc(data: array<int>, hac: Huffman, fac: array<int>, dequant: seq<nat>) returns (ok: bool)
      requires Valid() && Ready(data, hac, fac, dequant)
      modifies `code_buffer, `code_bits, `marker, `nomore, `fed, s, data
      ensures ok ==> Valid()
      ensures var ref := RefAc(ent, old(Pos()), hac.lens, hac.values[..], dequant, 1, old(data[..]));
              Telling(hac, ref) ==> if ok then Valid() && ref == Coefs(Pos(), data[..]) else ref.BadCode?
    {
      hide Reader.Valid, Reader.Ready, RefAc, Top, FastAc;
      ReadyShape(data, hac, fac, dequant);
      ghost var ref := RefAc(ent, Pos(), hac.lens, hac.values[..], dequant, 1, data[..]);
      var k := 1;
      while k < 64
        invariant Valid() && Ready(data, hac, fac, dequant)
        invariant Telling(hac, ref) ==> ref == RefAc(ent, Pos(), hac.lens, hac.values[..], dequant, k, data[..])
        decreases if k < 64 then 64 - k else 0
      {
        Fill(16);
        TopNine();
        var c := Low(Shr(code_buffer, 32 - FAST_BITS), FAST_BITS);
        TableEntry(data, hac, fac, dequant, c);
        var r := fac[c];
        var step;
        if r != 0 {
          step, k := FastStep(data, hac, fac, dequant, k, r);
        } else {
          step, k := SlowStep(data, hac, fac, dequant, k);
        }
        match step {
          case More =>
          case Ended => return true;
          case Refused => return false;
        }
      }
      AcDone(ent, Pos(), hac.lens, hac.values[..], dequant, k, data[..]);
      ok := true;
    }

    lemma ReadyShape(data: array<int>, hac: Huffman, fac: array<int>, dequant: seq<nat>)
      requires Ready(data, hac, fac, dequant)
      ensures data.Length == |dequant| == BLOCK && fac.Length == FAST_SIZE
      ensures hac.Valid() && hac.values.Length == 256 && |hac.lens| <= 256 && Sorted(hac.lens)
    {}

    lemma TableEntry(data: array<int>, hac: Huffman, fac: array<int>, dequant: seq<nat>, c: nat)
      requires Ready(data, hac, fac, dequant) && c < FAST_SIZE
      ensures fac.Length == FAST_SIZE && |hac.lens| <= hac.values.Length
              && fac[c] == FastAc(hac.lens, hac.values[..], c)
    {}

    lemma TopNine()
      requires Valid() && (code_bits >= 16 || Pos() + code_bits >= 8 * |ent|)
      ensures Low(Shr(code_buffer, 32 - FAST_BITS), FAST_BITS) == Top(ent, Pos(), FAST_BITS) < FAST_SIZE
    {
      hide Reader.Ahead, Buffered, Shr, Low, Top;
      BufferTop(code_buffer, ent, Pos(), code_bits, FAST_BITS);
      TopBound(ent, Pos(), FAST_BITS);
      SmallLow(Top(ent, Pos(), FAST_BITS), FAST_BITS);
      SmallPowers();
    }

    /** The DC coefficient. */
    method DecodeDc(data: array<int>, hdc: Huffman, b: nat, dequant: seq<nat>) returns (ok: bool)
      requires Valid() && hdc.Valid() && data.Length == |dequant| == BLOCK && b < dc_pred.Length && data != dc_pred
      requires data != hdc.delta && dc_pred != hdc.delta
      modifies `code_buffer, `code_bits, `marker, `nomore, `fed, s, data, dc_pred
      ensures ok ==> Valid()
      ensures forall i :: 0 <= i < dc_pred.Length && i != b ==> dc_pred[i] == old(dc_pred[i])
      ensures |hdc.lens| <= hdc.values.Length
      ensures var ref := RefDc(ent, old(Pos()), hdc.lens, hdc.values[..], dequant[0], old(dc_pred[b]));
              ref.pos <= 8 * |ent| && !Collides(hdc.lens) ==>
                if ok then ref == DcValue(Pos(), dc_pred[b]) && data[..] == Zeros(BLOCK)[0 := dc_pred[b] * dequant[0]]
                else ref.BadDc?
    {
      hide Reader.Valid, Huffman.Valid, RefDc, Top, Found, Wanted, Extend, AddIntsValid, Mul2ShortsValid, Zeros;
      TableShape(hdc);
      DcStep(ent, Pos(), hdc.lens, hdc.values[..], dequant[0], dc_pred[b]);
      if !Collides(hdc.lens) { FoundIsWanted(hdc.lens, Top(ent, Pos(), 16)); }
      var t := HuffDecode(hdc);
      if t < 0 || t > 15 { return false; }
      Clear(data);
      var diff := 0;
      if t != 0 { diff := ExtendReceive(t); } else { NoBits(ent, Pos()); }
      if !AddIntsValid(dc_pred[b], diff) { return false; }
      var dc := dc_pred[b] + diff;
      dc_pred[b] := dc;
      if !Mul2ShortsValid(dc, dequant[0]) { return false; }
      StoreDc(data, dc, dequant[0]);
      ok := true;
    }

    /** `memset(data, 0, ...)`. */
    static method Clear(data: array<int>)
      requires data.Length == BLOCK
      modifies data
      ensures data[..] == Zeros(BLOCK)
    {
      for i := 0 to BLOCK
        invariant forall j :: 0 <= j < i ==> data[j] == 0
      {
        data[i] := 0;
      }
    }

    static method StoreDc(data: array<int>, dc: int, factor: nat)
      requires data.Length == BLOCK && data[..] == Zeros(BLOCK) && Mul2ShortsValid(dc, factor)
      modifies data
      ensures data[..] == Zeros(BLOCK)[0 := dc * factor]
    {
      hide Zeros, Short, Mul2ShortsValid;
      Mul2ShortsExact(dc, factor);
      data[0] := Short(dc * factor);
    }

    /** `stbi__jpeg_decode_block`: with tables that do not collide and all bits there, the block is
        exactly the one the code describes, and what is refused is what the code does not describe. */
    method DecodeBlock(data: array<int>, hdc: Huffman, hac: Huffman, fac: array<int>, b: nat,
          dequant: seq<nat>) returns (ok: bool)
      requires Valid() && hdc.Valid() && Ready(data, hac, fac, dequant) && b < dc_pred.Length && data != dc_pred
      requires data != hdc.delta && dc_pred != hdc.delta && dc_pred != hac.delta && dc_pred != fac
      modifies `code_buffer, `code_bits, `marker, `nomore, `fed, s, data, dc_pred
      ensures ok ==> Valid()
      ensures forall i :: 0 <= i < dc_pred.Length && i != b ==> dc_pred[i] == old(dc_pred[i])
      ensures |hdc.lens| <= hdc.values.Length && |hac.lens| <= hac.values.Length && |dequant| == BLOCK == data.Length
      ensures var ref := RefBlock(ent, old(Pos()), hdc.lens, hdc.values[..], hac.lens, hac.values[..], dequant,
              old(dc_pred[b]));
              ref.pos <= 8 * |ent| && !Collides(hdc.lens) && !Collides(hac.lens) ==>
                if ok then Valid() && ref == Block(Pos(), dc_pred[b], data[..]) else ref.BadBlock?
    {
      hide Reader.Valid, Huffman.Valid, RefAc, RefDc, Top, FastAc, Zeros;
      TableShape(hdc);
      TableShape(hac);
      ok := DecodeDc(data, hdc, b, dequant);
      if !ok { return; }
      ok := DecodeAc(data, hac, fac, dequant);
    }
  }

  /** The first length above nine whose largest code is above the lookahead. */
  method FindSize(h: Huffman, temp: nat) returns (k: nat)
    requires h.Valid() && temp < Pow2(16)
    ensures k == SlowSize(h.lens, temp, FAST_BITS + 1)
  {
    hide Huffman.Codes, Huffman.FastFilled, Huffman.Sizes, Bound, FirstSlot, FirstCode, Fits, Pow2, SlowSize;
    k := FAST_BITS + 1;
    BoundNumber(h, k);
    while !(temp < h.maxcode[k])
      invariant k <= 17 && h.maxcode[k] == (if k == 17 then UINT_MAX else Bound(h.lens, k))
      invariant SlowSize(h.lens, temp, FAST_BITS + 1) == SlowSize(h.lens, temp, k)
      decreases 17 - k
    {
      SmallPowers();
      SlowSizeStep(h.lens, temp, k);
      k := k + 1;
      BoundNumber(h, k);
    }
    SlowSizeStep(h.lens, temp, k);
  }

  lemma SlowSizeStep(lens: seq<nat>, w: nat, k: nat)
    requires k <= 17
    ensures SlowSize(lens, w, k) == if k == 17 || w < Bound(lens, k) then k else SlowSize(lens, w, k + 1)
  {}

  lemma BoundNumber(h: Huffman, k: nat)
    requires h.Valid() && 1 <= k <= 17
    ensures h.maxcode.Length == 18 && h.maxcode[k] == if k == 17 then UINT_MAX else Bound(h.lens, k)
  {}

  lemma SizeNumbers(h: Huffman, k: nat)
    requires h.Valid() && 1 <= k <= 16
    ensures h.delta.Length == 17 && h.values.Length == 256 && h.delta[k] == FirstSlot(h.lens, k) - FirstCode(h.lens, k)
  {}

  lemma FastFind(h: Huffman, w: nat)
    requires h.Valid() && Shr(w, 7) < FAST_SIZE
    ensures h.fast.Length == FAST_SIZE && h.size.Length == 257 && h.values.Length == 256
    ensures var k := h.fast[Shr(w, 7)];
            k == FastEntry(h.lens, |h.lens|, Shr(w, 7))
            && (k < 255 ==>
                  k < |h.lens| && h.lens[k] <= FAST_BITS && h.size[k] == h.lens[k]
                  && Found(h.lens, w) == Some(Symbol(k, h.lens[k])))
  {
    hide Fits, Sorted, Huffman.Codes, Huffman.Bounds;
    EntrySymbol(h, Shr(w, 7));
    FastEntryIs(h.lens, |h.lens|, Shr(w, 7));
  }

  lemma TakeFirst(ent: seq<byte>, fed: nat, b: byte, rest: seq<byte>)
    requires fed <= |ent| && ent[fed..] == [b] + rest
    ensures fed < |ent| && ent[fed] == b && ent[fed + 1..] == rest
  {
    assert ent[fed..][0] == b && ent[fed..][1..] == rest;
  }

  lemma TableShape(h: Huffman)
    requires h.Valid()
    ensures h.values.Length == 256 && |h.lens| <= 256 && Sorted(h.lens)
  {}

  /** The first of `n` bits tells the sign. */
  lemma SignBit(ent: seq<byte>, pos: nat, n: nat)
    ensures n > 0 ==> (Top(ent, pos, 1) == 0 <==> Top(ent, pos, n) < Pow2(n - 1))
    ensures n == 0 ==> Top(ent, pos, 0) == 0 && Shl(1, 0) == 1
  {
    if n > 0 {
      hide Top, Shl;
      TopSplit(ent, pos, 1, n - 1);
      TopBound(ent, pos + 1, n - 1);
      if Top(ent, pos, 1) == 0 { ShlZero(n - 1); } else { ShlMono(1, Top(ent, pos, 1), n - 1); }
    }
  }

  lemma NoBits(ent: seq<byte>, pos: nat)
    ensures Extend(Top(ent, pos, 0), 0) == 0
  {}

  lemma AcDone(ent: seq<byte>, pos: nat, lens: seq<nat>, values: seq<byte>, deq: seq<nat>, k: nat, data: seq<int>)
    requires |lens| <= |values| && |deq| == |data| == BLOCK && k >= BLOCK
    ensures RefAc(ent, pos, lens, values, deq, k, data) == Coefs(pos, data)
  {}

  lemma EmptyBuffer(ent: seq<byte>)
    ensures Buffered(0, ent, 0, 0)
  {
    ShlZero(WORD);
  }

  lemma EntropyStep(file: seq<byte>, pos: nat)
    ensures Entropy(file, pos) ==
            if pos >= |file| then [] else if file[pos] != 255 then [file[pos]] + Entropy(file, pos + 1)
            else
              var p := AfterFill(file, pos + 1);
              if Peek(file, p) != 0 then [] else [255] + Entropy(file, Next(file, p, 1))
    ensures StopAt(file, pos) ==
            if pos >= |file| then EndOfFile else if file[pos] != 255 then StopAt(file, pos + 1)
            else
              var p := AfterFill(file, pos + 1);
              if Peek(file, p) != 0 then Marker(Peek(file, p), Next(file, p, 1)) else StopAt(file, Next(file, p, 1))
  {}

  lemma FillStep(file: seq<byte>, pos: nat)
    ensures AfterFill(file, pos) == if Peek(file, pos) == 255 then AfterFill(file, pos + 1) else pos
  {}
}
