/** The entropy-coded data of a JPEG scan: bytes without their stuffing, read from the most
    significant bit down, and the 32-bit buffer that holds the next bits at its top. */
module JpegBits {
  import opened Bits
  import opened Context

  // ----- entropy-coded bytes -----

  /** Past the fill bytes at `pos`. */
  function AfterFill(file: seq<byte>, pos: nat): (p: nat)
    ensures p >= pos && Peek(file, p) != 255
    decreases if pos < |file| then |file| - pos else 0
  {
    if Peek(file, pos) == 255 then AfterFill(file, pos + 1) else pos
  }

  /** The entropy-coded bytes from `pos` up to a marker or the end of the file; 0xff stands for
      itself when zero follows, with or without fill bytes between (section B.1.1.5 of ITU-T T.81). */
  function Entropy(file: seq<byte>, pos: nat): seq<byte>
    decreases if pos < |file| then |file| - pos else 0
  {
    if pos >= |file| then []
    else if file[pos] != 255 then [file[pos]] + Entropy(file, pos + 1)
    else
      var p := AfterFill(file, pos + 1);
      if Peek(file, p) != 0 then [] else [255] + Entropy(file, Next(file, p, 1))
  }

  /** What ends the entropy-coded bytes: a marker and the place behind it, or the end of the file. */
  datatype Stop = Marker(code: byte, next: nat) | EndOfFile

  function StopAt(file: seq<byte>, pos: nat): Stop
    decreases if pos < |file| then |file| - pos else 0
  {
    if pos >= |file| then EndOfFile
    else if file[pos] != 255 then StopAt(file, pos + 1)
    else
      var p := AfterFill(file, pos + 1);
      if Peek(file, p) != 0 then Marker(Peek(file, p), Next(file, p, 1)) else StopAt(file, Next(file, p, 1))
  }

  /** Stuffing as an encoder writes it: a zero after every 0xff. */
  function Stuffed(bytes: seq<byte>): seq<byte>
  {
    if bytes == [] then []
    else (if bytes[0] == 255 then [255, 0] else [bytes[0]]) + Stuffed(bytes[1..])
  }

  /** Stuffed bytes before a marker or the end of the file are read as they were. */
  lemma {:induction false} StuffingRoundTrip(file: seq<byte>, pos: nat, bytes: seq<byte>)
    requires pos + |Stuffed(bytes)| <= |file| && file[pos..pos + |Stuffed(bytes)|] == Stuffed(bytes)
    requires var end := pos + |Stuffed(bytes)|;
             end == |file| || (end + 1 < |file| && file[end] == 255 && file[end + 1] != 0 && file[end + 1] != 255)
    ensures Entropy(file, pos) == bytes
    ensures StopAt(file, pos) ==
            var end := pos + |Stuffed(bytes)|; if end == |file| then EndOfFile else Marker(file[end + 1], end + 2)
    decreases |bytes|
  {
    var all := Stuffed(bytes);
    if bytes == [] {
      if pos < |file| { assert AfterFill(file, pos + 1) == pos + 1; }
    } else {
      var n := if bytes[0] == 255 then 2 else 1;
      assert file[pos..pos + |all|][0] == all[0];
      assert file[pos + n..pos + |all|] == all[n..] == Stuffed(bytes[1..]);
      StuffingRoundTrip(file, pos + n, bytes[1..]);
      if bytes[0] == 255 {
        assert file[pos..pos + |all|][1] == all[1];
        assert AfterFill(file, pos + 1) == pos + 1;
      }
    }
  }

  // ----- bits -----

  /** Bit `i`, each byte's most significant bit first, zeros past the end. */
  function MsbBit(data: seq<byte>, i: nat): (b: nat)
    ensures b < 2
  {
    if i / 8 < |data| then BitOf(data[i / 8], 7 - i % 8) else 0
  }

  /** The `n` bits at `pos` as a number, first bit most significant. */
  function Top(data: seq<byte>, pos: nat, n: nat): nat
  {
    if n == 0 then 0 else 2 * Top(data, pos, n - 1) + MsbBit(data, pos + n - 1)
  }

  lemma {:induction false} TopBound(data: seq<byte>, pos: nat, n: nat)
    ensures Top(data, pos, n) < Pow2(n)
  {
    if n > 0 { TopBound(data, pos, n - 1); }
  }

  lemma {:induction false} TopSplit(data: seq<byte>, pos: nat, m: nat, n: nat)
    ensures Top(data, pos, m + n) == Shl(Top(data, pos, m), n) + Top(data, pos + m, n)
    decreases n
  {
    if n > 0 {
      TopSplit(data, pos, m, n - 1);
      assert Top(data, pos, m + n) == 2 * Top(data, pos, m + n - 1) + MsbBit(data, pos + m + n - 1);
    }
  }

  lemma {:induction false} TopPast(data: seq<byte>, pos: nat, n: nat)
    requires pos >= 8 * |data|
    ensures Top(data, pos, n) == 0
  {
    if n > 0 { TopPast(data, pos, n - 1); }
  }

  lemma {:induction false} TopOfByte(data: seq<byte>, p: nat, i: nat)
    requires p < |data| && i <= 8
    ensures Top(data, 8 * p, i) == Shr(data[p], 8 - i)
  {
    var v := data[p];
    if i == 0 {
      SmallPowers();
      ShrLess(v, 1, 8);
    } else {
      TopOfByte(data, p, i - 1);
      var j := 8 * p + i - 1;
      assert j / 8 == p && j % 8 == i - 1;
      BitOfShr(v, 8 - i);
      ShrShr(v, 8 - i, 1);
      assert Shr(Shr(v, 8 - i), 1) == Shr(v, 8 - i) / 2;
    }
  }

  lemma TopByte(data: seq<byte>, p: nat)
    ensures Top(data, 8 * p, 8) == if p < |data| then data[p] else 0
  {
    if p < |data| { TopOfByte(data, p, 8); } else { TopPast(data, 8 * p, 8); }
  }

  /** The first `m` of `n` bits. */
  lemma TopPrefix(data: seq<byte>, pos: nat, m: nat, n: nat)
    requires m <= n
    ensures Shr(Top(data, pos, n), n - m) == Top(data, pos, m)
    ensures Low(Top(data, pos, n), n - m) == Top(data, pos + m, n - m)
  {
    hide Top, Shl, Shr, Low;
    TopSplit(data, pos, m, n - m);
    assert m + (n - m) == n;
    TopBound(data, pos + m, n - m);
    Join(Top(data, pos + m, n - m), Top(data, pos, m), n - m);
  }

  // ----- the buffer -----

  const WORD := 32

  /** The buffer's top `n` bits are the next of the stream and the rest is zero. */
  ghost predicate Buffered(buffer: nat, data: seq<byte>, pos: nat, n: nat)
  {
    n <= WORD && buffer == Shl(Top(data, pos, n), WORD - n)
  }

  /** The top `m` bits are the next `m` bits of the stream, if the buffer holds as many or the stream
      has no more. */
  lemma BufferTop(buffer: nat, data: seq<byte>, pos: nat, n: nat, m: nat)
    requires Buffered(buffer, data, pos, n) && m <= WORD && (m <= n || pos + n >= 8 * |data|)
    ensures Shr(buffer, WORD - m) == Top(data, pos, m)
  {
    hide Top, Shl, Shr;
    if m <= n {
      ShlOut(Top(data, pos, n), WORD - n);
      ShrShr(buffer, WORD - n, n - m);
      assert WORD - n + (n - m) == WORD - m;
      TopPrefix(data, pos, m, n);
    } else {
      TopSplit(data, pos, n, m - n);
      assert n + (m - n) == m;
      TopPast(data, pos + n, m - n);
      ShlShl(Top(data, pos, n), m - n, WORD - m);
      assert m - n + (WORD - m) == WORD - n;
      ShlOut(Top(data, pos, m), WORD - m);
    }
  }

  lemma ShlOut(v: nat, n: nat)
    ensures Shr(Shl(v, n), n) == v
  {
    Join(0, v, n);
  }

  lemma BufferBound(buffer: nat, data: seq<byte>, pos: nat, n: nat)
    requires Buffered(buffer, data, pos, n)
    ensures buffer < Pow2(WORD)
  {
    hide Top, Shl;
    TopBound(data, pos, n);
    ShlAdd(Top(data, pos, n), 1, WORD - n);
    ShlMono(Top(data, pos, n) + 1, Pow2(n), WORD - n);
    ShlShl(1, n, WORD - n);
    assert n + (WORD - n) == WORD;
    ShlPositive(1, WORD - n);
  }

  lemma ShlPositive(v: nat, n: nat)
    requires v > 0
    ensures Shl(v, n) > 0
  {}

  /** `buffer <<= m` drops the first `m` bits. */
  lemma BufferDrop(buffer: nat, data: seq<byte>, pos: nat, n: nat, m: nat)
    requires Buffered(buffer, data, pos, n) && m <= n
    ensures Buffered(Low(Shl(buffer, m), WORD), data, pos + m, n - m)
  {
    hide Top, Shl, Low;
    var rest := Top(data, pos + m, n - m);
    TopSplit(data, pos, m, n - m);
    assert m + (n - m) == n;
    ShlShl(Top(data, pos, n), WORD - n, m);
    var k := WORD - n + m;
    ShlAdd(Shl(Top(data, pos, m), n - m), rest, k);
    ShlShl(Top(data, pos, m), n - m, k);
    assert n - m + k == WORD;
    BufferBound(Shl(rest, WORD - (n - m)), data, pos + m, n - m);
    Join(Shl(rest, k), Top(data, pos, m), WORD);
  }

  /** `buffer |= b << (24 - n)` appends a byte of the stream. */
  lemma BufferAppend(buffer: nat, data: seq<byte>, fed: nat, n: nat, b: nat)
    requires n <= 24 && n <= 8 * fed && Buffered(buffer, data, 8 * fed - n, n)
    requires b == if fed < |data| then data[fed] else 0
    ensures Buffered(Or(buffer, Shl(b, 24 - n)), data, 8 * fed - n, n + 8)
  {
    hide Top, Shl, Low, Or;
    var t := Top(data, 8 * fed - n, n);
    TopSplit(data, 8 * fed - n, n, 8);
    TopByte(data, fed);
    SmallPowers();
    ShlAdd(b, 1, 24 - n);
    ShlMono(b + 1, Pow2(8), 24 - n);
    ShlShl(1, 8, 24 - n);
    ShlPositive(1, 24 - n);
    assert 8 + (24 - n) == WORD - n;
    OrIsAdd(Shl(b, 24 - n), t, WORD - n);
    OrSwap(buffer, Shl(b, 24 - n));
    ShlShl(t, 8, 24 - n);
    ShlAdd(Shl(t, 8), b, 24 - n);
  }

  lemma {:induction false} OrSwap(a: nat, b: nat)
    ensures Or(a, b) == Or(b, a)
    decreases a
  {
    if a != 0 && b != 0 { OrSwap(a / 2, b / 2); }
  }

  // ----- rotating -----

  /** `stbi_lrot` of a 32-bit number. */
  function Lrot(x: nat, n: nat): nat
    requires n < WORD
  {
    Or(Low(Shl(x, n), WORD), Shr(x, (WORD - n) % WORD))
  }

  /** Rotating brings the first `n` bits to the bottom and the others to the top. */
  lemma Rotated(x: nat, n: nat)
    requires n < WORD && x < Pow2(WORD)
    ensures n > 0 ==> Low(Lrot(x, n), n) == Shr(x, WORD - n)
    ensures n == 0 ==> Low(Lrot(x, n), n) == 0
    ensures Lrot(x, n) - Low(Lrot(x, n), n) == Low(Shl(x, n), WORD)
  {
    hide Or, Low, Shl, Shr;
    if n == 0 {
      ZeroShifts(x);
      SmallLow(x, WORD);
      OrSelf(x);
    } else {
      var hi, lo := Shr(x, WORD - n), Low(x, WORD - n);
      Split(x, WORD - n);
      ShlAdd(lo, Shl(hi, WORD - n), n);
      ShlShl(hi, WORD - n, n);
      assert WORD - n + n == WORD;
      LowBound(x, WORD - n);
      ShlAdd(lo, 1, n);
      ShlMono(lo + 1, Pow2(WORD - n), n);
      ShlShl(1, WORD - n, n);
      ShlPositive(1, n);
      Join(Shl(lo, n), hi, WORD);
      ShlShl(1, n, WORD - n);
      ShrLess(x, Pow2(n), WORD - n);
      OrIsAdd(hi, lo, n);
      OrSwap(Low(Shl(x, n), WORD), hi);
      Join(hi, lo, n);
    }
  }

  lemma ZeroShifts(x: nat)
    ensures Shl(x, 0) == x && Shr(x, 0) == x && Low(x, 0) == 0
  {}

  lemma {:induction false} OrSelf(a: nat)
    ensures Or(a, a) == a
  {
    if a != 0 { OrSelf(a / 2); }
  }
}
