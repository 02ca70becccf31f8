/** The zlib decoder as the program runs it: a bit buffer refilled byte by byte, table lookups and
    an output buffer that doubles, each step proved against the reference decoder of `Deflate`. */
module ZBuf {
  import opened Bits
  import opened Canonical
  import opened Slots
  import opened ZHuffman
  import opened Deflate
  import opened ZWindow

  /** The largest size repeated doubling can reach without wrapping an unsigned int. */
  function MaxLimit(limit: nat): (m: nat)
    requires limit > 0
    ensures m >= limit
    ensures limit <= UINT_MAX ==> m <= UINT_MAX
    decreases UINT_MAX - limit
  {
    if limit > UINT_MAX / 2 then limit else MaxLimit(2 * limit)
  }

  /** ... in numbers: `k` doublings fit an unsigned int, and one more does not. */
  lemma {:induction false} MaxLimitIs(limit: nat) returns (k: nat)
    requires 0 < limit <= UINT_MAX
    ensures MaxLimit(limit) == limit * Pow2(k) <= UINT_MAX < limit * Pow2(k + 1)
    decreases UINT_MAX - limit
  {
    if limit > UINT_MAX / 2 {
      k := 0;
    } else {
      var j := MaxLimitIs(2 * limit);
      Twice(limit, Pow2(j));
      Twice(limit, Pow2(j + 1));
      k := j + 1;
    }
  }

  lemma Twice(a: nat, p: nat)
    ensures 2 * a * p == a * (2 * p)
  {}

  /** How many bytes a decoder given a buffer of `size` bytes can produce. */
  function OutputCap(size: nat, expandable: bool): (cap: nat)
    requires expandable ==> size > 0
    ensures cap >= size
    ensures size <= UINT_MAX ==> cap <= UINT_MAX
  {
    if expandable then MaxLimit(size) else size
  }

  /** Sixteen or more buffered bits, reversed, are the stream's 16-bit lookahead. */
  lemma Lookahead(data: seq<byte>, pos: nat, n: nat)
    requires n >= 16
    ensures Reverse(Val(data, pos, n), 16) == Code(data, pos, 16)
  {
    hide Reverse, Val, Code, Low, Shr;
    ValLowShr(data, pos, n, 16);
    ReverseLow(Val(data, pos, n), 16, 16);
    ReverseVal(data, pos, 16);
  }

  /** Implicit zero bits past the end leave the buffer's value unchanged. */
  lemma PadZeros(data: seq<byte>, pos: nat, n: nat, m: nat)
    requires pos + n >= 8 * |data|
    ensures Val(data, pos, n + m) == Val(data, pos, n)
  {
    ValSplit(data, pos, n, m);
    ValPast(data, pos + n, m);
    ShlZero(n);
  }

  /** Past all real code lengths no symbol can match. */
  lemma NoLongSymbol(lens: seq<nat>, w: nat)
    requires Lengths(lens, 15) && w >= Bound(lens, 15)
    ensures Lookup(lens, w).None?
  {
    NoLonger(lens, |lens|, 16, 15);
    FirstBound(lens, 16);
    LookupDefined(lens, w);
  }

  /** The two 16-bit fields of a stored block's header, byte by byte. */
  lemma HeaderFields(data: seq<byte>, p: nat)
    ensures Val(data, p, 16) == Val(data, p, 8) + 256 * Val(data, p + 8, 8)
    ensures Val(data, p + 16, 16) == Val(data, p + 16, 8) + 256 * Val(data, p + 24, 8)
  {
    hide Val;
    ValSplit(data, p, 8, 8);
    ValSplit(data, p + 16, 8, 8);
    Shl8(Val(data, p + 8, 8));
    Shl8(Val(data, p + 24, 8));
  }

  /** Filling byte by byte stops at the refilled window. */
  lemma RefillIs(pos: nat, fed: nat)
    requires fed % 8 == 0 && pos + 24 < fed <= pos + 32
    ensures fed == 8 * ((pos + 24) / 8 + 1)
  {}

  lemma AlignByBuffer(fed: nat, n: nat)
    requires fed % 8 == 0 && n <= fed
    ensures Align(fed - n) == fed - n + n % 8
  {}

  /** After a valid header the input pointer stands exactly behind it; implicit zeros cannot form one. */
  lemma StoredStart(data: seq<byte>, p: nat, zb: nat, len: nat)
    requires p % 8 == 0 && zb <= |data| && len == Val(data, p, 16)
    requires zb < |data| ==> p + 32 == 8 * zb
    requires zb == |data| ==> p + 32 >= 8 * |data|
    requires Val(data, p + 16, 16) == 0xffff - len
    ensures zb + len > |data| <==> p / 8 + 4 + len > |data|
    ensures zb + len <= |data| ==> p + 32 == 8 * zb
  {
    hide Val;
    if zb == |data| && p + 32 > 8 * |data| {
      ValPast(data, p + 24, 8);
      HeaderFields(data, p);
      ValBound(data, p + 16, 8);
      SmallPowers();
      assert len >= 0xff00;
    }
  }

  /** How one turn of the symbol loop ends. */
  datatype SymbolResult = Again | EndOfBlock | BadSymbol

  class Decoder {
    const data: seq<byte>
    var zbuffer: nat
    var num_bits: nat
    var hit_zeof_once: bool
    var code_buffer: nat
    var zout_start: array<byte>
    var zout: nat
    const z_expandable: bool
    const z_length: Table
    const z_distance: Table
    /** Bits handed to the bit buffer so far, implicit zeros past the end included. */
    ghost var fed: nat
    /** The largest output this decoder can produce. */
    ghost const cap: nat
    /** The buffer the caller supplied. */
    ghost const given: array<byte>

    ghost predicate Reader()
      reads `zbuffer, `num_bits, `hit_zeof_once, `code_buffer, `fed
      ensures Reader() ==> num_bits <= fed
    {
      && zbuffer <= |data| && num_bits <= 32 && num_bits <= fed && fed % 8 == 0
      && (zbuffer < |data| ==> fed == 8 * zbuffer)
      && (zbuffer == |data| ==> fed >= 8 * |data|)
      && (hit_zeof_once ==> fed >= 8 * |data| + 16)
      && code_buffer == Val(data, fed - num_bits, num_bits)
    }

    /** The window, with its position in the stream. */
    ghost function Win(): (w: Window)
      requires num_bits <= fed
      reads `num_bits, `fed, `hit_zeof_once
      ensures w.pos == Pos() && w.fed == fed && w.hit == hit_zeof_once
    {
      Window(fed - num_bits, fed, hit_zeof_once)
    }

    /** The number of stream bits consumed. */
    ghost function Pos(): nat
      requires num_bits <= fed
      reads `num_bits, `fed
    {
      fed - num_bits
    }

    ghost predicate Output()
      reads `zout_start, `zout
      ensures Output() ==> zout <= zout_start.Length <= cap
    {
      && zout <= zout_start.Length <= cap <= UINT_MAX
      && (z_expandable ==> zout_start.Length > 0 && MaxLimit(zout_start.Length) == cap)
      && (!z_expandable ==> zout_start.Length == cap && zout_start == given)
      && zout_start !in z_length.Repr() && zout_start !in z_distance.Repr()
    }

    ghost predicate Tables()
    {
      && z_length.Shape() && z_distance.Shape() && z_length.Repr() !! z_distance.Repr()
      && (this as object) !in z_length.Repr() && (this as object) !in z_distance.Repr()
    }

    ghost predicate Valid()
      reads `zbuffer, `num_bits, `hit_zeof_once, `code_buffer, `fed, `zout_start, `zout
    {
      Reader() && Output() && Tables()
    }

    /** The bytes written so far. */
    ghost function Out(): seq<byte>
      requires Output()
      reads `zout_start, `zout, zout_start
    {
      zout_start[..zout]
    }

    /** The output fields as `stbi__do_zlib` sets them. Doubling needs a non-empty buffer to start from. */
    constructor (buffer: seq<byte>, obuf: array<byte>, expandable: bool)
      requires obuf.Length <= INT_MAX
      requires expandable ==> obuf.Length > 0
      ensures Valid() && zbuffer == 0 && zout == 0
      ensures data == buffer && zout_start == obuf == given && z_expandable == expandable
      ensures cap == OutputCap(obuf.Length, expandable)
      ensures fresh(z_length.Repr()) && fresh(z_distance.Repr())
      ensures num_bits == 0 && fed == 0 && !hit_zeof_once
    {
      data := buffer;
      zbuffer := 0;
      num_bits := 0;
      hit_zeof_once := false;
      code_buffer := 0;
      zout_start := obuf;
      given := obuf;
      zout := 0;
      z_expandable := expandable;
      var l := new Table();
      var d := new Table();
      z_length := l;
      z_distance := d;
      fed := 0;
      cap := OutputCap(obuf.Length, expandable);
    }

    // ----- bits -----

    method ZGet8() returns (b: nat)
      requires zbuffer <= |data|
      modifies `zbuffer
      ensures b < 256
      ensures zbuffer == if old(zbuffer) < |data| then old(zbuffer) + 1 else |data|
      ensures b == if old(zbuffer) < |data| then data[old(zbuffer)] else 0
    {
      if zbuffer >= |data| { return 0; }
      b := data[zbuffer];
      zbuffer := zbuffer + 1;
    }

    /** One more byte of the stream, zero past the end. */
    method FeedByte() returns (b: nat)
      requires Reader()
      modifies `zbuffer, `fed
      ensures b == Val(data, old(fed), 8) < 256
      ensures fed == old(fed) + 8 && zbuffer <= |data|
      ensures zbuffer < |data| ==> fed == 8 * zbuffer
      ensures zbuffer == |data| ==> fed >= 8 * |data|
    {
      if zbuffer < |data| {
        ValByte(data, zbuffer);
      } else {
        ValPast(data, fed, 8);
      }
      b := ZGet8();
      fed := fed + 8;
    }

    /** `stbi__fill_bits`: bytes until more than 24 bits are buffered. */
    method FillBits()
      requires Reader() && num_bits <= 24
      modifies `zbuffer, `num_bits, `code_buffer, `fed
      ensures Reader() && Win() == Refill(old(Win()))
    {
      hide Decoder.Reader;
      FillByte();
      while num_bits <= 24
        invariant Reader() && Pos() == old(Pos()) && num_bits <= 32
        decreases 32 - num_bits
      {
        FillByte();
      }
      ReaderBounds();
      RefillIs(old(Pos()), fed);
    }

    /** One byte into the bit buffer; the guard on stray high bits never fires. */
    method FillByte()
      requires Reader() && num_bits <= 24
      modifies `zbuffer, `num_bits, `code_buffer, `fed
      ensures Reader() && num_bits == old(num_bits) + 8 && Pos() == old(Pos())
    {
      hide Val, Or, Shl;
      ShiftIn(data, Pos(), num_bits, 8);
      if code_buffer >= Shl(1, num_bits) {
        assert false;
      }
      var b := FeedByte();
      code_buffer := Or(code_buffer, Shl(b, num_bits));
      num_bits := num_bits + 8;
    }

    /** Drop `n` bits from the buffer. */
    method Consume(n: nat)
      requires Reader() && n <= num_bits
      modifies `num_bits, `code_buffer
      ensures Reader() && Pos() == old(Pos()) + n && num_bits == old(num_bits) - n
    {
      hide Val, Shr;
      ValLowShr(data, Pos(), num_bits, n);
      code_buffer := Shr(code_buffer, n);
      num_bits := num_bits - n;
    }

    /** `stbi__zreceive`: the next `n` bits, least significant first. */
    method ZReceive(n: nat) returns (k: nat)
      requires Reader() && n <= 16
      modifies `zbuffer, `num_bits, `code_buffer, `fed
      ensures Reader() && Pos() == old(Pos()) + n
      ensures Win() == Take(old(Win()), n)
      ensures k == Val(data, old(Pos()), n)
      ensures old(num_bits) >= n ==> zbuffer == old(zbuffer)
    {
      hide Val, Shr, Low;
      if num_bits < n { FillBits(); }
      ValLowShr(data, Pos(), num_bits, n);
      k := Low(code_buffer, n);
      Consume(n);
    }

    // ----- Huffman codes -----

    /** `stbi__zhuffman_decode_slowpath`, entered on a fast table miss. */
    method DecodeSlow(t: Table) returns (sym: int)
      requires Reader() && num_bits >= 16 && t.Valid()
      requires Code(data, Pos(), 16) >= Bound(t.lens, FAST_BITS)
      requires this !in t.Repr()
      modifies `num_bits, `code_buffer
      ensures Reader()
      ensures sym == -1 ==> SymbolAt(t.lens, data, old(Pos())).None?
      ensures sym != -1 ==> sym >= 0 && SymbolAt(t.lens, data, old(Pos())) == Some(sym)
                            && Pos() == old(Pos()) + t.lens[sym]
    {
      hide Val, Code, BitReverse, Reverse, Bound, FirstCode, FirstSlot, Shr, Shl, Count, FastEntry;
      ghost var w := Code(data, Pos(), 16);
      var k := BitReverse(code_buffer, 16);
      assert k == w by { Lookahead(data, Pos(), num_bits); BitReverseReverses(code_buffer, 16); }
      CodeBound(data, Pos(), 16);
      SmallPowers();
      var s := FAST_BITS + 1;
      while k >= t.maxcode[s]
        invariant 10 <= s <= 16
        invariant Bound(t.lens, s - 1) <= k
        decreases 16 - s
      {
        s := s + 1;
      }
      if s >= 16 {
        NoLongSymbol(t.lens, w);
        return -1;
      }
      ghost var hit := SlowLookup(t.lens, w, s);
      var b := Shr(k, 16 - s) - t.firstcode[s] + t.firstsymbol[s];
      if b >= NUM_SYMBOLS {
        assert false;
      } else if t.size[b] != s {
        assert false;
      }
      Consume(s);
      sym := t.value[b];
    }

    /** `stbi__zhuffman_decode`: the next symbol, or -1 when no code matches or the input ran out. */
    method Decode(t: Table) returns (sym: int)
      requires Reader() && t.Valid() && this !in t.Repr()
      modifies `zbuffer, `num_bits, `hit_zeof_once, `code_buffer, `fed
      ensures Reader()
      ensures match NextSymbol(data, t.lens, old(Win()))
              case NoSymbol => sym == -1
              case Symbol(z, w) => sym == z && Win() == w
    {
      hide Val, SymbolAt, Table.Valid;
      ReaderBounds();
      if num_bits < 16 {
        if zbuffer >= |data| {
          if !hit_zeof_once {
            PadZeros(data, Pos(), num_bits, 16);
            hit_zeof_once := true;
            num_bits := num_bits + 16;
            fed := fed + 16;
          } else {
            return -1;
          }
        } else {
          FillBits();
        }
      }
      sym := DecodeBuffered(t);
    }

    /** The table lookup itself: nine bits in the fast table, then the slow path. */
    method DecodeBuffered(t: Table) returns (sym: int)
      requires Reader() && num_bits >= 16 && t.Valid() && this !in t.Repr()
      modifies `num_bits, `code_buffer
      ensures Reader()
      ensures sym == -1 ==> SymbolAt(t.lens, data, old(Pos())).None?
      ensures sym != -1 ==> sym >= 0 && SymbolAt(t.lens, data, old(Pos())) == Some(sym)
                            && Pos() == old(Pos()) + t.lens[sym]
    {
      hide Val, Code, Reverse, Bound, FirstCode, FirstSlot, Shr, Shl, Low, Count, FastEntry;
      Lookahead(data, Pos(), num_bits);
      FastLookup(t.lens, code_buffer);
      LowBound(code_buffer, FAST_BITS);
      SmallPowers();
      var b := t.fast[Low(code_buffer, FAST_BITS)];
      if b != 0 {
        Consume(b / 512);
        return b % 512;
      }
      sym := DecodeSlow(t);
    }

    // ----- output -----

    /** `stbi__zexpand`: make room for `n` bytes at `z`, keeping what is written. */
    method Expand(z: nat, n: nat) returns (ok: bool)
      requires Valid() && z <= zout_start.Length < z + n
      modifies `zout, `zout_start
      ensures Valid() && zout == z
      ensures ok <==> z + n <= cap
      ensures ok ==> fresh(zout_start) && zout_start.Length >= z + n && zout_start[..z] == old(zout_start[..z])
      ensures !ok ==> zout_start == old(zout_start)
    {
      zout := z;
      if !z_expandable { return false; }
      var cur := zout;
      var limit := zout_start.Length;
      if UINT_MAX - cur < n { return false; }
      while cur + n > limit
        invariant zout_start.Length <= limit <= UINT_MAX && limit > 0 && MaxLimit(limit) == cap
        decreases UINT_MAX - limit
      {
        if limit > UINT_MAX / 2 { return false; }
        limit := limit * 2;
      }
      zout_start := Realloc(zout_start, limit);
      ok := true;
    }

    /** `realloc`: a larger buffer that starts with the old one's bytes. */
    static method Realloc(p: array<byte>, limit: nat) returns (q: array<byte>)
      requires p.Length <= limit
      ensures fresh(q) && q.Length == limit
      ensures forall n :: 0 <= n <= p.Length ==> q[..n] == p[..n]
    {
      q := new byte[limit](_ => 0);
      for i := 0 to p.Length
        invariant forall k :: 0 <= k < i ==> q[k] == p[k]
      {
        q[i] := p[i];
      }
    }

    /** Room for `n` bytes at `z`, growing only if needed. */
    method Ensure(z: nat, n: nat) returns (ok: bool)
      requires Valid() && z <= zout_start.Length
      modifies `zout, `zout_start
      ensures Valid()
      ensures ok <==> z + n <= cap
      ensures zout == z || zout == old(zout)
      ensures ok ==> zout_start.Length >= z + n && zout_start[..z] == old(zout_start[..z])
      ensures zout_start == old(zout_start) || fresh(zout_start)
    {
      if n > zout_start.Length - z {
        ok := Expand(z, n);
      } else {
        ok := true;
      }
    }

    /** Append one byte at `z`. */
    method PutByte(z: nat, b: byte) returns (ok: bool)
      requires Valid() && z <= zout_start.Length
      modifies `zout, `zout_start, zout_start
      ensures Valid()
      ensures ok <==> z + 1 <= cap
      ensures ok ==> zout_start.Length >= z + 1 && zout_start[..z + 1] == old(zout_start[..z]) + [b]
      ensures zout_start == old(zout_start) || fresh(zout_start)
    {
      ghost var out := zout_start[..z];
      ok := Ensure(z, 1);
      if !ok { return; }
      zout_start[z] := b;
      assert zout_start[..z + 1] == out + [b];
    }

    /** The overlapping copy and its one-byte shortcut. */
    method CopyBack(z: nat, dist: nat, len: nat)
      requires 1 <= dist <= z && z + len <= zout_start.Length
      modifies zout_start
      ensures zout_start[..z + len] == CopyMatch(old(zout_start[..z]), dist, len)
    {
      if dist == 1 {
        FillRunByte(z, len);
      } else {
        for i := 0 to len
          invariant zout_start[..z + i] == CopyMatch(old(zout_start[..z]), dist, i)
        {
          zout_start[z + i] := zout_start[z + i - dist];
          assert zout_start[..z + i + 1] == zout_start[..z + i] + [zout_start[z + i - dist]];
        }
      }
    }

    /** A run of one byte. */
    method FillRunByte(z: nat, len: nat)
      requires 1 <= z && z + len <= zout_start.Length
      modifies zout_start
      ensures zout_start[..z + len] == CopyMatch(old(zout_start[..z]), 1, len)
    {
      var v := zout_start[z - 1];
      for i := 0 to len
        invariant zout_start[..z + i] == CopyMatch(old(zout_start[..z]), 1, i)
        invariant zout_start[z + i - 1] == v
      {
        zout_start[z + i] := v;
        assert zout_start[..z + i + 1] == zout_start[..z + i] + [v];
      }
    }

    // ----- blocks -----

    /** `stbi__parse_huffman_block`. */
    method ParseHuffmanBlock() returns (ok: bool)
      requires Valid() && z_length.Valid() && z_distance.Valid()
      modifies `zbuffer, `num_bits, `hit_zeof_once, `code_buffer, `fed, `zout, `zout_start, zout_start
      ensures Valid()
      ensures zout_start == old(zout_start) || fresh(zout_start)
      ensures z_length.Valid() && z_distance.Valid()
      ensures ExactSymbols(data, z_length.lens, z_distance.lens, old(Win()), old(Out()), cap)
              == if ok then Got(Win(), Out()) else Refused
    {
      hide Val, ExactSymbols, Table.Valid, MaxLimit, Decoder.Reader;
      ghost var r := ExactSymbols(data, z_length.lens, z_distance.lens, Win(), Out(), cap);
      var z := zout;
      while true
        invariant Valid() && z_length.Valid() && z_distance.Valid()
        invariant zout_start == old(zout_start) || fresh(zout_start)
        invariant z <= zout_start.Length
        invariant r == ExactSymbols(data, z_length.lens, z_distance.lens, Win(), zout_start[..z], cap)
        decreases cap - z
      {
        var s;
        s, z := ParseSymbol(z);
        match s {
          case Again =>
          case EndOfBlock => return true;
          case BadSymbol => return false;
        }
      }
    }

    /** One symbol of a block and, for a length symbol, its match. Each adds output or ends the loop. */
    method ParseSymbol(z: nat) returns (s: SymbolResult, z': nat)
      requires Valid() && z_length.Valid() && z_distance.Valid() && z <= zout_start.Length
      modifies `zbuffer, `num_bits, `hit_zeof_once, `code_buffer, `fed, `zout, `zout_start, zout_start
      ensures Valid()
      ensures zout_start == old(zout_start) || fresh(zout_start)
      ensures z_length.Valid() && z_distance.Valid()
      ensures var r := ExactSymbols(data, z_length.lens, z_distance.lens, old(Win()), old(zout_start[..z]), cap);
              match s
              case Again => z < z' <= zout_start.Length
                            && r == ExactSymbols(data, z_length.lens, z_distance.lens, Win(), zout_start[..z'], cap)
              case EndOfBlock => r == Got(Win(), Out())
              case BadSymbol => r == Refused
    {
      hide Val, ExactSymbols, ExactMatch, NextSymbol, Table.Valid, MaxLimit, ExactPair, CopyMatch, Decoder.Reader;
      s, z' := Again, z;
      ExactStep(data, z_length.lens, z_distance.lens, Win(), zout_start[..z], cap);
      var sym := Decode(z_length);
      if sym < 256 {
        if sym < 0 { return BadSymbol, z; }
        var room := PutByte(z, sym);
        if !room { return BadSymbol, z; }
        z' := z + 1;
      } else if sym == 256 {
        zout := z;
        ReaderBounds();
        s := if hit_zeof_once && num_bits < 16 then BadSymbol else EndOfBlock;
      } else if sym >= 286 {
        s := BadSymbol;
      } else {
        var ok;
        ok, z' := ParseMatch(z, sym - 257);
        if !ok { s := BadSymbol; }
      }
    }

    /** `n` extra bits, none of them read when there are none. */
    method ExtraBits(n: nat) returns (k: nat)
      requires Reader() && n <= 16
      modifies `zbuffer, `num_bits, `code_buffer, `fed
      ensures Reader() && Win() == Take(old(Win()), n) && k == Val(data, old(Pos()), n)
    {
      k := 0;
      if n != 0 { k := ZReceive(n); }
    }

    /** The length and distance of one match. */
    method ReadPair(l: nat) returns (ok: bool, len: nat, dist: nat)
      requires Reader() && z_distance.Valid() && this !in z_distance.Repr() && l < 29
      modifies `zbuffer, `num_bits, `hit_zeof_once, `code_buffer, `fed
      ensures Reader()
      ensures ExactPair(data, z_distance.lens, old(Win()), l) == if ok then MatchPair(Win(), len, dist) else NoMatch
    {
      hide Val, NextSymbol, Take, Table.Valid, Decoder.Reader, LengthBase, LengthExtra, DistBase, DistExtra;
      var lx := ExtraBits(LengthExtra(l));
      len := LengthBase(l) + lx;
      var d := Decode(z_distance);
      if d < 0 || d >= 30 { return false, 0, 0; }
      var dx := ExtraBits(DistExtra(d));
      dist := DistBase(d) + dx;
      ok := true;
    }

    /** One match: its length and distance, the checks and the copy. */
    method ParseMatch(z: nat, l: nat) returns (ok: bool, z': nat)
      requires Valid() && z_length.Valid() && z_distance.Valid()
      requires z <= zout_start.Length && l < 29
      modifies `zbuffer, `num_bits, `hit_zeof_once, `code_buffer, `fed, `zout, `zout_start, zout_start
      ensures Valid()
      ensures zout_start == old(zout_start) || fresh(zout_start)
      ensures z_length.Valid() && z_distance.Valid()
      ensures var r := ExactMatch(data, z_length.lens, z_distance.lens, old(Win()), l, old(zout_start[..z]), cap);
              if ok then
                z < z' <= zout_start.Length
                && r == ExactSymbols(data, z_length.lens, z_distance.lens, Win(), zout_start[..z'], cap)
              else r == Refused
    {
      hide Val, ExactSymbols, ExactPair, Table.Valid, MaxLimit, CopyMatch, Decoder.Reader;
      z' := z;
      var len, dist;
      ok, len, dist := ReadPair(l);
      if !ok { return; }
      if z < dist { return false, z; }
      ok := Ensure(z, len);
      if !ok { return; }
      CopyBack(z, dist, len);
      z' := z + len;
    }

    // ----- dynamic code tables -----

    /** The code length code's own lengths. */
    method ReadCodeLengthSizes(hclen: nat) returns (sizes: seq<nat>)
      requires Reader() && 4 <= hclen <= 19
      modifies `zbuffer, `num_bits, `code_buffer, `fed
      ensures Reader() && Win() == TakeThrees(old(Win()), hclen)
      ensures sizes == CodeLengthSizes(data, old(Pos()), hclen)
    {
      hide Val, Repeat, Decoder.Reader, CodeLengthSymbol, Take;
      var a := new nat[19](_ => 0);
      assert a[..] == Repeat(0, 19);
      for i := 0 to hclen
        invariant Reader() && Win() == TakeThrees(old(Win()), i)
        invariant a[..] == CodeLengthSizes(data, old(Pos()), i)
      {
        var s := ZReceive(3);
        a[CodeLengthSymbol(i)] := s;
      }
      sizes := a[..];
    }

    /** One code length symbol at `n`: a length, or a run of a repeated or zero length. */
    method ReadLength(t: Table, lencodes: array<nat>, n: nat, ntot: nat) returns (ok: bool, n': nat)
      requires Reader() && t.Valid() && this !in t.Repr() && lencodes !in t.Repr()
      requires n < ntot <= lencodes.Length && Lengths(lencodes[..n], 15)
      modifies `zbuffer, `num_bits, `hit_zeof_once, `code_buffer, `fed, lencodes
      ensures Reader() && t.Valid()
      ensures ok ==> n < n' <= ntot && Lengths(lencodes[..n'], 15)
      ensures var r := ExactLengths(data, t.lens, old(Win()), old(lencodes[..n]), ntot);
              r == if ok then ExactLengths(data, t.lens, Win(), lencodes[..n'], ntot) else LensRefused
    {
      hide Val, NextSymbol, Table.Valid, ExactLengths, Take;
      ghost var acc := lencodes[..n];
      ExactLengthsStep(data, t.lens, Win(), acc, ntot);
      n' := n;
      var c := Decode(t);
      if c < 0 || c >= 19 { return false, n; }
      if c < 16 {
        lencodes[n] := c;
        n' := n + 1;
        assert lencodes[..n'] == acc + [c];
        return true, n';
      }
      if c == 16 && n == 0 { return false, n; }
      var fill, len := ReadRun(c, acc, if n > 0 then lencodes[n - 1] else 0);
      if ntot - n < len { return false, n; }
      FillRun(lencodes, n, fill, len);
      n' := n + len;
      ok := true;
    }

    /** The value and length of a run: 3..6 repeats of the previous length, 3..10 or 11..138 zeros. */
    method ReadRun(c: nat, ghost acc: seq<nat>, prev: nat) returns (fill: nat, len: nat)
      requires Reader() && c in {16, 17, 18}
      requires c == 16 ==> |acc| > 0 && prev == acc[|acc| - 1]
      modifies `zbuffer, `num_bits, `code_buffer, `fed
      ensures Reader()
      ensures var t := RunOf(data, old(Pos()), c, acc); t.0 == fill && t.1 == len && Win() == Take(old(Win()), t.2)
    {
      hide Val, Decoder.Reader, Take;
      fill := 0;
      if c == 16 {
        len := ZReceive(2);
        len := len + 3;
        fill := prev;
      } else if c == 17 {
        len := ZReceive(3);
        len := len + 3;
      } else {
        len := ZReceive(7);
        len := len + 11;
      }
    }

    method FillRun(lencodes: array<nat>, n: nat, fill: nat, len: nat)
      requires n + len <= lencodes.Length
      modifies lencodes
      ensures lencodes[..n + len] == old(lencodes[..n]) + Repeat(fill, len)
    {
      for i := 0 to len
        invariant lencodes[..n + i] == old(lencodes[..n]) + Repeat(fill, i)
      {
        lencodes[n + i] := fill;
        assert lencodes[..n + i + 1] == lencodes[..n + i] + [fill];
      }
    }

    /** All `ntot` lengths. */
    method ReadLengths(t: Table, ntot: nat) returns (ok: bool, lencodes: array<nat>)
      requires Reader() && t.Valid() && this !in t.Repr() && ntot <= 286 + 32 + 137
      modifies `zbuffer, `num_bits, `hit_zeof_once, `code_buffer, `fed
      ensures Reader() && fresh(lencodes) && lencodes.Length >= ntot
      ensures ExactLengths(data, t.lens, old(Win()), [], ntot)
              == if ok then LensGot(Win(), lencodes[..ntot]) else LensRefused
    {
      hide Val, ExactLengths, Table.Valid;
      lencodes := new nat[286 + 32 + 137];
      var n := 0;
      ghost var r := ExactLengths(data, t.lens, Win(), [], ntot);
      assert lencodes[..0] == [];
      while n < ntot
        invariant Reader() && t.Valid() && n <= ntot && Lengths(lencodes[..n], 15)
        invariant r == ExactLengths(data, t.lens, Win(), lencodes[..n], ntot)
        decreases ntot - n
      {
        ok, n := ReadLength(t, lencodes, n, ntot);
        if !ok { return; }
      }
      ExactLengthsDone(data, t.lens, Win(), lencodes[..n], ntot);
      ok := true;
    }

    method ReadCounts() returns (hlit: nat, hdist: nat, hclen: nat)
      requires Reader()
      modifies `zbuffer, `num_bits, `code_buffer, `fed
      ensures Reader() && Win() == TakeCounts(old(Win()))
      ensures hlit == Val(data, old(Pos()), 5) + 257 <= 288
      ensures hdist == Val(data, old(Pos()) + 5, 5) + 1 <= 32
      ensures hclen == Val(data, old(Pos()) + 10, 4) + 4 <= 19
    {
      hide Val, Decoder.Reader, Take;
      CountsBound(data, Pos());
      hlit := ZReceive(5);
      hlit := hlit + 257;
      hdist := ZReceive(5);
      hdist := hdist + 1;
      hclen := ZReceive(4);
      hclen := hclen + 4;
    }

    /** `stbi__compute_huffman_codes`. */
    method ComputeHuffmanCodes() returns (ok: bool)
      requires Valid()
      modifies `zbuffer, `num_bits, `hit_zeof_once, `code_buffer, `fed, z_length.Repr(), z_distance.Repr()
      ensures Valid()
      ensures var r := ExactDynamic(data, old(Win()));
              if ok then r == CodesGot(Win(), z_length.lens, z_distance.lens) && z_length.Valid() && z_distance.Valid()
              else r == CodesRefused
    {
      hide Val, ExactLengths, TakeThrees, TakeCounts, Table.Valid, CodeLengthSizes, Fits, MaxLimit, Decoder.Reader,
           Decoder.Output;
      var hlit, hdist, hclen := ReadCounts();
      var ntot := hlit + hdist;
      var lens;
      ok, lens := ReadBothLengths(hclen, ntot);
      if !ok { return; }
      ok := BuildBoth(lens, hlit);
    }

    /** The code length code and the lengths it compresses. */
    method ReadBothLengths(hclen: nat, ntot: nat) returns (ok: bool, lens: seq<nat>)
      requires Reader() && 4 <= hclen <= 19 && ntot <= 286 + 32 + 137
      modifies `zbuffer, `num_bits, `hit_zeof_once, `code_buffer, `fed
      ensures Reader()
      ensures var cl, w := CodeLengthSizes(data, old(Pos()), hclen), TakeThrees(old(Win()), hclen);
              if ok then Fits(cl) && ExactLengths(data, cl, w, [], ntot) == LensGot(Win(), lens)
              else !Fits(cl) || ExactLengths(data, cl, w, [], ntot) == LensRefused
    {
      hide Val, ExactLengths, TakeThrees, Table.Valid, CodeLengthSizes, Fits, Decoder.Reader;
      lens := [];
      var codelength_sizes := ReadCodeLengthSizes(hclen);
      var z_codelength := new Table();
      ok := z_codelength.Build(codelength_sizes);
      if !ok { return; }
      var lencodes;
      ok, lencodes := ReadLengths(z_codelength, ntot);
      lens := lencodes[..ntot];
    }

    /** The literal/length table from the first `hlit` lengths, the distance table from the rest. */
    method BuildBoth(lens: seq<nat>, hlit: nat) returns (ok: bool)
      requires Tables() && hlit <= |lens| && Lengths(lens, 15) && hlit <= 288 && |lens| - hlit <= 32
      modifies z_length.Repr(), z_distance.Repr()
      ensures ok <==> Fits(lens[..hlit]) && Fits(lens[hlit..])
      ensures ok ==> z_length.Valid() && z_length.lens == lens[..hlit]
      ensures ok ==> z_distance.Valid() && z_distance.lens == lens[hlit..]
    {
      hide Fits, Table.Valid;
      ok := z_length.Build(lens[..hlit]);
      if !ok { return; }
      ok := z_distance.Build(lens[hlit..]);
    }

    // ----- stored blocks and the stream -----

    /** A whole byte still in the bit buffer. */
    method DrainByte() returns (b: nat)
      requires Reader() && num_bits >= 8
      modifies `num_bits, `code_buffer
      ensures Reader() && num_bits == old(num_bits) - 8
      ensures b == Val(data, old(Pos()), 8) < 256
    {
      hide Val, Shr, Low;
      ValLowShr(data, Pos(), num_bits, 8);
      ValBound(data, Pos(), 8);
      SmallPowers();
      b := Low(code_buffer, 8);
      Consume(8);
    }

    /** A byte straight from the input once the bit buffer is empty. */
    method DirectByte() returns (b: nat)
      requires Reader() && num_bits == 0
      modifies `zbuffer, `fed
      ensures Reader() && fed == old(fed) + 8
      ensures b == Val(data, old(fed), 8) < 256
    {
      hide Val;
      EmptyVal(data, fed);
      b := FeedByte();
      EmptyVal(data, fed);
    }

    /** The four header bytes of a stored block: whole bytes left in the bit buffer, then the input. */
    method StoredHeader() returns (header: array<nat>)
      requires Reader() && num_bits % 8 == 0 && num_bits <= 32
      modifies `zbuffer, `num_bits, `code_buffer, `fed
      ensures Reader() && num_bits == 0 && fed == old(Pos()) + 32
      ensures fresh(header) && header.Length == 4
      ensures forall i :: 0 <= i < 4 ==> header[i] == Val(data, old(Pos()) + 8 * i, 8) < 256
    {
      hide Val, Decoder.Reader;
      header := new nat[4];
      var k := 0;
      while num_bits > 0
        invariant Reader() && num_bits % 8 == 0 && num_bits + 8 * k <= 32
        invariant Pos() == old(Pos()) + 8 * k
        invariant forall i :: 0 <= i < k ==> header[i] == Val(data, old(Pos()) + 8 * i, 8) < 256
      {
        header[k] := DrainByte();
        k := k + 1;
      }
      while k < 4
        invariant Reader() && num_bits == 0 && k <= 4 && fed == old(Pos()) + 8 * k
        invariant forall i :: 0 <= i < k ==> header[i] == Val(data, old(Pos()) + 8 * i, 8) < 256
      {
        header[k] := DirectByte();
        k := k + 1;
      }
    }

    /** Skip to the byte boundary, read LEN and check NLEN against it. */
    method StoredLength() returns (ok: bool, len: nat)
      requires Reader()
      modifies `zbuffer, `num_bits, `code_buffer, `fed
      ensures Reader() && num_bits == 0 && fed == Align(old(Pos())) + 32
      ensures len == Val(data, Align(old(Pos())), 16)
      ensures ok <==> Val(data, Align(old(Pos())) + 16, 16) == 0xffff - len
    {
      hide Val, Decoder.Reader;
      ReaderBounds();
      AlignByBuffer(fed, num_bits);
      var partial := num_bits % 8;
      if partial != 0 {
        var skipped := ZReceive(partial);
      }
      HeaderFields(data, Pos());
      var header := StoredHeader();
      len := header[1] * 256 + header[0];
      var nlen := header[3] * 256 + header[2];
      ok := nlen == 0xffff - len;
    }

    lemma ReaderBounds()
      requires Reader()
      ensures num_bits <= 32 && fed % 8 == 0 && (hit_zeof_once ==> fed >= 8 * |data| + 16)
      ensures zbuffer <= |data| && (zbuffer < |data| ==> fed == 8 * zbuffer)
              && (zbuffer == |data| ==> fed >= 8 * |data|)
    {}

    /** `stbi__parse_uncompressed_block`: no prefetched byte is lost and none is invented. */
    method ParseUncompressedBlock() returns (ok: bool)
      requires Valid()
      modifies `zbuffer, `num_bits, `code_buffer, `fed, `zout, `zout_start, zout_start
      ensures Valid()
      ensures zout_start == old(zout_start) || fresh(zout_start)
      ensures ExactStored(data, old(Win()), old(Out()), cap) == if ok then Got(Win(), Out()) else Refused
    {
      hide Val, MaxLimit, Decoder.Reader, Decoder.Output, Align;
      ghost var p := Align(Pos());
      var len;
      ok, len := StoredLength();
      if !ok { return; }
      ReaderBounds();
      AlignedUp(old(Pos()));
      StoredStart(data, p, zbuffer, len);
      if zbuffer + len > |data| { return false; }
      ok := StorePayload(len);
    }

    /** Copy the payload out and step over it. */
    method StorePayload(len: nat) returns (ok: bool)
      requires Valid() && num_bits == 0 && fed == 8 * zbuffer && zbuffer + len <= |data|
      modifies `zbuffer, `fed, `zout, `zout_start, zout_start
      ensures Valid() && num_bits == 0
      ensures zout_start == old(zout_start) || fresh(zout_start)
      ensures ok <==> old(zout) + len <= cap
      ensures ok ==> fed == old(fed) + 8 * len
      ensures ok ==> Out() == old(Out()) + data[old(zbuffer)..old(zbuffer) + len]
    {
      hide Val, MaxLimit, Decoder.Reader;
      ok := Ensure(zout, len);
      if !ok { return; }
      CopyIn(len);
      Advance(len);
      zout := zout + len;
    }

    lemma AlignedUp(pos: nat)
      ensures Align(pos) % 8 == 0
    {}

    /** Step the input pointer over payload bytes. */
    method Advance(len: nat)
      requires Reader() && num_bits == 0 && fed == 8 * zbuffer && zbuffer + len <= |data|
      modifies `zbuffer, `fed
      ensures Reader() && zbuffer == old(zbuffer) + len && fed == old(fed) + 8 * len
    {
      EmptyVal(data, fed);
      zbuffer := zbuffer + len;
      fed := fed + 8 * len;
      EmptyVal(data, fed);
    }

    /** `memcpy` from the input to the output. */
    method CopyIn(len: nat)
      requires zbuffer + len <= |data| && zout + len <= zout_start.Length
      modifies zout_start
      ensures zout_start[..zout + len] == old(zout_start[..zout]) + data[zbuffer..zbuffer + len]
    {
      for i := 0 to len
        invariant zout_start[..zout + i] == old(zout_start[..zout]) + data[zbuffer..zbuffer + i]
      {
        zout_start[zout + i] := data[zbuffer + i];
        assert zout_start[..zout + i + 1] == zout_start[..zout + i] + [data[zbuffer + i]];
      }
    }

    /** `stbi__parse_zlib_header`. */
    method ParseZlibHeader() returns (ok: bool)
      requires zbuffer == 0
      modifies `zbuffer
      ensures ok <==> HeaderOk(data)
      ensures ok ==> zbuffer == 2
      ensures zbuffer <= |data|
    {
      var cmf := ZGet8();
      var cm := cmf % 16;
      var flg := ZGet8();
      if zbuffer >= |data| { return false; }
      if (cmf * 256 + flg) % 31 != 0 { return false; }
      if flg / 32 % 2 != 0 { return false; }
      if cm != 8 { return false; }
      ok := true;
    }

    /** One block after its header bits. */
    method ParseBody(kind: nat) returns (ok: bool)
      requires Valid() && kind < 4
      modifies `zbuffer, `num_bits, `hit_zeof_once, `code_buffer, `fed, `zout, `zout_start, zout_start
      modifies z_length.Repr(), z_distance.Repr()
      ensures Valid()
      ensures zout_start == old(zout_start) || fresh(zout_start)
      ensures ExactBody(data, kind, old(Win()), old(Out()), cap) == if ok then Got(Win(), Out()) else Refused
    {
      hide Val, ExactSymbols, ExactStored, ExactDynamic, Table.Valid, MaxLimit, Decoder.Reader;
      if kind == 0 {
        ok := ParseUncompressedBlock();
      } else if kind == 3 {
        ok := false;
      } else {
        ok := ParseCompressed(kind);
      }
    }

    method ParseCompressed(kind: nat) returns (ok: bool)
      requires Valid() && (kind == 1 || kind == 2)
      modifies `zbuffer, `num_bits, `hit_zeof_once, `code_buffer, `fed, `zout, `zout_start, zout_start
      modifies z_length.Repr(), z_distance.Repr()
      ensures Valid()
      ensures zout_start == old(zout_start) || fresh(zout_start)
      ensures ExactBody(data, kind, old(Win()), old(Out()), cap) == if ok then Got(Win(), Out()) else Refused
    {
      hide Val, ExactSymbols, ExactStored, ExactDynamic, Table.Valid, MaxLimit, Decoder.Reader;
      if kind == 1 {
        BuildFixed();
      } else {
        ok := ComputeHuffmanCodes();
        if !ok { return; }
      }
      ok := ParseHuffmanBlock();
    }

    /** The fixed tables; they always build. */
    method BuildFixed()
      requires Tables()
      modifies z_length.Repr(), z_distance.Repr()
      ensures z_length.Valid() && z_length.lens == FixedLengths(288)
      ensures z_distance.Valid() && z_distance.lens == Repeat(5, 32)
    {
      hide Table.Valid, Fits;
      FixedFit();
      var built := z_length.Build(FixedLengths(288));
      built := z_distance.Build(Repeat(5, 32));
    }

    /** `stbi__parse_zlib`: the whole stream. */
    method ParseZlib(parse_header: bool) returns (ok: bool)
      requires Valid() && zbuffer == 0 && zout == 0
      modifies `zbuffer, `num_bits, `hit_zeof_once, `code_buffer, `fed, `zout, `zout_start, zout_start
      modifies z_length.Repr(), z_distance.Repr()
      ensures zout_start == old(zout_start) || fresh(zout_start)
      ensures ok ==> Valid()
      ensures ok <==> ExactZlib(data, parse_header, cap).Got?
      ensures ok ==> ExactZlib(data, parse_header, cap) == Got(Win(), Out())
    {
      hide Val, ExactBlocks, ExactBody, Table.Valid, MaxLimit;
      if parse_header {
        ok := ParseZlibHeader();
        if !ok { return; }
      }
      num_bits := 0;
      code_buffer := 0;
      hit_zeof_once := false;
      fed := 8 * zbuffer;
      EmptyVal(data, fed);
      assert Out() == [];
      ok := ParseBlocks();
    }

    /** The loop over blocks. A block that parses started inside the input, so the loop ends. */
    method ParseBlocks() returns (ok: bool)
      requires Valid()
      modifies `zbuffer, `num_bits, `hit_zeof_once, `code_buffer, `fed, `zout, `zout_start, zout_start
      modifies z_length.Repr(), z_distance.Repr()
      ensures Valid()
      ensures zout_start == old(zout_start) || fresh(zout_start)
      ensures ExactBlocks(data, old(Win()), old(Out()), cap) == if ok then Got(Win(), Out()) else Refused
    {
      hide Val, ExactBlocks, ExactBody, Table.Valid, MaxLimit, Decoder.Reader, Take;
      ghost var r := ExactBlocks(data, Win(), Out(), cap);
      var final := 0;
      while final == 0
        invariant Valid()
        invariant zout_start == old(zout_start) || fresh(zout_start)
        invariant r == if final == 0 then ExactBlocks(data, Win(), Out(), cap) else Got(Win(), Out())
        decreases if final == 0 && Pos() < 8 * |data| then 8 * |data| - Pos() else 0
      {
        ExactBlocksStep(data, Win(), Out(), cap);
        final := ZReceive(1);
        var kind := ZReceive(2);
        ok := ParseBody(kind);
        if !ok { return; }
      }
      ok := true;
    }
  }

  /** `stbi_zlib_decode_malloc_guesssize_headerflag`: decode into a growing buffer. */
  method DecodeMalloc(buffer: seq<byte>, initial_size: nat, parse_header: bool) returns (r: Option<seq<byte>>)
    requires 0 < initial_size <= INT_MAX
    ensures var exact := ExactZlib(buffer, parse_header, MaxLimit(initial_size));
            r == if exact.Got? then Some(exact.out) else None
    ensures var ref := RefZlib(buffer, parse_header, MaxLimit(initial_size));
            match r
            case Some(out) => ref.Done? && ref.out == out
            case None => ref.Fail? || ref.pos > 8 * |buffer|
  {
    hide ExactZlib, RefZlib;
    ZlibAgrees(buffer, parse_header, MaxLimit(initial_size));
    var p := new byte[initial_size];
    var a := new Decoder(buffer, p, true);
    var ok := a.ParseZlib(parse_header);
    if ok {
      r := Some(a.zout_start[..a.zout]);
    } else {
      r := None;
    }
  }

  /** `stbi_zlib_decode_buffer` and its no-header twin: decode into the caller's buffer. */
  method DecodeBuffer(obuffer: array<byte>, ibuffer: seq<byte>, parse_header: bool) returns (n: int)
    requires obuffer.Length <= INT_MAX
    modifies obuffer
    ensures n == -1 || 0 <= n <= obuffer.Length
    ensures var exact := ExactZlib(ibuffer, parse_header, obuffer.Length);
            if exact.Got? then n >= 0 && exact.out == obuffer[..n] else n == -1
    ensures var ref := RefZlib(ibuffer, parse_header, obuffer.Length);
            if n >= 0 then ref.Done? && ref.out == obuffer[..n]
            else ref.Fail? || ref.pos > 8 * |ibuffer|
  {
    hide ExactZlib, RefZlib;
    ZlibAgrees(ibuffer, parse_header, obuffer.Length);
    var a := new Decoder(ibuffer, obuffer, false);
    var ok := a.ParseZlib(parse_header);
    if ok {
      n := a.zout;
    } else {
      n := -1;
    }
  }
}
