/** `stbi__psd_decode_rle`: run-length coded channels, written at a stride of four bytes. */
module PackBits {
  import opened Bits
  import opened Context

  const NO_OP := 128

  datatype Unpacked = Pixels(values: seq<byte>) | Corrupt

  function Fill(v: byte, n: nat): (s: seq<byte>)
    ensures |s| == n
  {
    if n == 0 then [] else Fill(v, n - 1) + [v]
  }

  function Prepend(s: seq<byte>, u: Unpacked): Unpacked
  {
    if u.Pixels? then Pixels(s + u.values) else Corrupt
  }

  /** The `n` values coded from `pos` on (section 9 of TIFF 6.0). A count that overruns is corrupt. */
  function Unpack(file: seq<byte>, pos: nat, n: nat): (r: Unpacked)
    ensures r.Pixels? ==> |r.values| == n
    decreases n, if pos < |file| then |file| - pos else 0
  {
    if n == 0 then Pixels([]) else
    var len, p := Peek(file, pos), Next(file, pos, 1);
    if len == NO_OP then Unpack(file, p, n)
    else if len < NO_OP then
      if len + 1 > n then Corrupt
        else Prepend(Taken(file, p, len + 1), Unpack(file, Next(file, p, len + 1), n - (len + 1)))
    else
      if 257 - len > n then Corrupt
        else Prepend(Fill(Peek(file, p), 257 - len), Unpack(file, Next(file, p, 1), n - (257 - len)))
  }

  lemma UnpackStep(file: seq<byte>, pos: nat, n: nat)
    requires n > 0
    ensures Unpack(file, pos, n) ==
            var len, p := Peek(file, pos), Next(file, pos, 1);
            if len == NO_OP then Unpack(file, p, n)
            else if len < NO_OP then
              if len + 1 > n then Corrupt
                else Prepend(Taken(file, p, len + 1), Unpack(file, Next(file, p, len + 1), n - (len + 1)))
            else
              if 257 - len > n then Corrupt
                else Prepend(Fill(Peek(file, p), 257 - len), Unpack(file, Next(file, p, 1), n - (257 - len)))
  {}

  // ----- in place -----

  /** Every fourth byte from `at` on. */
  function Channel(s: seq<byte>, at: nat, n: nat): (r: seq<byte>)
    requires n > 0 ==> at + 4 * (n - 1) < |s|
    ensures |r| == n
  {
    if n == 0 then [] else Channel(s, at, n - 1) + [s[at + 4 * (n - 1)]]
  }

  /** Only the first `n` bytes of the channel may differ. */
  ghost predicate OnlyChannel(s: seq<byte>, t: seq<byte>, at: nat, n: nat)
  {
    |s| == |t| && forall i :: 0 <= i < |s| && (i < at || (i - at) % 4 != 0 || i >= at + 4 * n) ==> s[i] == t[i]
  }

  lemma {:induction false} ChannelKept(s: seq<byte>, at: nat, n: nat, i: nat, v: byte)
    requires (n > 0 ==> at + 4 * (n - 1) < |s|) && at + 4 * n <= i < |s|
    ensures Channel(s[i := v], at, n) == Channel(s, at, n)
  {
    if n > 0 { ChannelKept(s, at, n - 1, i, v); }
  }

  lemma OnlyChannelMore(s: seq<byte>, t: seq<byte>, at: nat, n: nat, v: byte)
    requires OnlyChannel(s, t, at, n) && at + 4 * n < |s|
    ensures OnlyChannel(s[at + 4 * n := v], t, at, n + 1)
  {
    assert (4 * n) % 4 == 0;
  }

  method Store(p: array<byte>, at: nat, count: nat, v: byte, ghost first: seq<byte>)
    requires at + 4 * count < p.Length && OnlyChannel(p[..], first, at, count)
    modifies p
    ensures Channel(p[..], at, count + 1) == old(Channel(p[..], at, count)) + [v]
    ensures OnlyChannel(p[..], first, at, count + 1)
  {
    ghost var was := p[..];
    p[at + 4 * count] := v;
    assert p[..] == was[at + 4 * count := v];
    ChannelKept(was, at, count, at + 4 * count, v);
    OnlyChannelMore(was, first, at, count, v);
  }

  method CopyLiterals(s: Source, p: array<byte>, at: nat, start: nat, len: nat, ghost first: seq<byte>)
        returns (count: nat)
    requires len > 0 ==> at + 4 * (start + len - 1) < p.Length
    requires start > 0 ==> at + 4 * (start - 1) < p.Length
    requires OnlyChannel(p[..], first, at, start)
    modifies s, p
    ensures count == start + len && OnlyChannel(p[..], first, at, count)
    ensures Channel(p[..], at, count) == old(Channel(p[..], at, start)) + Taken(s.data, old(s.img_buffer), len)
    ensures s.img_buffer == Next(s.data, old(s.img_buffer), len)
  {
    hide OnlyChannel, Channel;
    count := start;
    for i := 0 to len
      invariant count == start + i && OnlyChannel(p[..], first, at, count)
      invariant s.img_buffer == Next(s.data, old(s.img_buffer), i)
      invariant Channel(p[..], at, count) == old(Channel(p[..], at, start)) + Taken(s.data, old(s.img_buffer), i)
    {
      PeekNext(s.data, old(s.img_buffer), i);
      var v := s.Get8();
      Store(p, at, count, v, first);
      count := count + 1;
    }
  }

  lemma PeekNext(file: seq<byte>, pos: nat, i: nat)
    ensures Peek(file, Next(file, pos, i)) == Peek(file, pos + i)
    ensures Next(file, Next(file, pos, i), 1) == Next(file, pos, i + 1)
  {}

  method FillRun(p: array<byte>, at: nat, start: nat, len: nat, v: byte, ghost first: seq<byte>) returns (count: nat)
    requires len > 0 ==> at + 4 * (start + len - 1) < p.Length
    requires start > 0 ==> at + 4 * (start - 1) < p.Length
    requires OnlyChannel(p[..], first, at, start)
    modifies p
    ensures count == start + len && OnlyChannel(p[..], first, at, count)
    ensures Channel(p[..], at, count) == old(Channel(p[..], at, start)) + Fill(v, len)
  {
    hide OnlyChannel, Channel;
    count := start;
    for i := 0 to len
      invariant count == start + i && OnlyChannel(p[..], first, at, count)
      invariant Channel(p[..], at, count) == old(Channel(p[..], at, start)) + Fill(v, i)
    {
      Store(p, at, count, v, first);
      count := count + 1;
    }
  }

  /** Decode one channel of `pixelCount` pixels. No byte outside the channel changes, whatever the data. */
  method DecodeRle(s: Source, p: array<byte>, at: nat, pixelCount: nat) returns (ok: bool)
    requires pixelCount > 0 ==> at + 4 * (pixelCount - 1) < p.Length
    modifies s, p
    ensures OnlyChannel(p[..], old(p[..]), at, pixelCount)
    ensures Unpack(s.data, old(s.img_buffer), pixelCount) ==
            if ok then Pixels(Channel(p[..], at, pixelCount)) else Corrupt
  {
    hide OnlyChannel, Unpack;
    ghost var first := p[..];
    var count := 0;
    NothingWritten(first, at);
    ghost var all := Unpack(s.data, s.img_buffer, pixelCount);
    while pixelCount - count > 0
      invariant count <= pixelCount && OnlyChannel(p[..], first, at, count)
      invariant all == Prepend(Channel(p[..], at, count), Unpack(s.data, s.img_buffer, pixelCount - count))
      decreases pixelCount - count, if s.img_buffer < |s.data| then |s.data| - s.img_buffer else 0
    {
      var nleft := pixelCount - count;
      UnpackStep(s.data, s.img_buffer, nleft);
      ghost var done := Channel(p[..], at, count);
      var len := s.Get8();
      if len < NO_OP {
        var n := len + 1;
        if n > nleft {
          Within(p[..], first, at, count, pixelCount);
          return false;
        }
        PrependPrepend(done, Taken(s.data, s.img_buffer, n), Unpack(s.data, Next(s.data, s.img_buffer, n), nleft - n));
        count := CopyLiterals(s, p, at, count, n, first);
      } else if len > NO_OP {
        var n := 257 - len;
        if n > nleft {
          Within(p[..], first, at, count, pixelCount);
          return false;
        }
        var val := s.Get8();
        PrependPrepend(done, Fill(val, n), Unpack(s.data, s.img_buffer, nleft - n));
        count := FillRun(p, at, count, n, val, first);
      }
    }
    Finished(s.data, s.img_buffer, Channel(p[..], at, count));
    ok := true;
  }

  lemma NothingWritten(s: seq<byte>, at: nat)
    ensures OnlyChannel(s, s, at, 0)
    ensures forall u :: Prepend([], u) == u
  {
    forall u ensures Prepend([], u) == u { if u.Pixels? { assert [] + u.values == u.values; } }
  }

  lemma Within(s: seq<byte>, t: seq<byte>, at: nat, n: nat, m: nat)
    requires OnlyChannel(s, t, at, n) && n <= m
    ensures OnlyChannel(s, t, at, m)
  {}

  lemma PrependPrepend(a: seq<byte>, b: seq<byte>, u: Unpacked)
    ensures Prepend(a, Prepend(b, u)) == Prepend(a + b, u)
  {
    if u.Pixels? { assert a + (b + u.values) == a + b + u.values; }
  }

  lemma Finished(file: seq<byte>, pos: nat, s: seq<byte>)
    ensures Prepend(s, Unpack(file, pos, 0)) == Pixels(s)
  {
    assert s + [] == s;
  }

  // ----- encoding -----

  /** The encoder's choices: bytes as they are, a repeated byte, or nothing. */
  datatype Packet = Literals(bytes: seq<byte>) | Repeated(v: byte, n: nat) | NoOp
  {
    predicate Ok()
    {
      match this
      case Literals(bytes) => 1 <= |bytes| <= 128
      case Repeated(_, n) => 2 <= n <= 128
      case NoOp => true
    }

    function Bytes(): seq<byte>
      requires Ok()
    {
      match this
      case Literals(bytes) => [|bytes| - 1] + bytes
      case Repeated(v, n) => [257 - n, v]
      case NoOp => [NO_OP]
    }

    function Values(): seq<byte>
    {
      match this
      case Literals(bytes) => bytes
      case Repeated(v, n) => Fill(v, n)
      case NoOp => []
    }
  }

  ghost predicate AllOk(packets: seq<Packet>)
  {
    forall i {:trigger packets[i]} :: 0 <= i < |packets| ==> packets[i].Ok()
  }

  function Packed(packets: seq<Packet>): seq<byte>
    requires AllOk(packets)
  {
    if packets == [] then [] else packets[0].Bytes() + Packed(packets[1..])
  }

  function Coded(packets: seq<Packet>): seq<byte>
  {
    if packets == [] then [] else packets[0].Values() + Coded(packets[1..])
  }

  lemma {:induction false} TakenIs(file: seq<byte>, pos: nat, n: nat)
    requires pos + n <= |file|
    ensures Taken(file, pos, n) == file[pos..pos + n]
  {
    if n > 0 { TakenIs(file, pos, n - 1); }
  }

  /** One packet gives its values and passes on what is left. */
  lemma PacketStep(file: seq<byte>, pos: nat, c: Packet, n: nat)
    requires c.Ok() && pos + |c.Bytes()| <= |file| && file[pos..pos + |c.Bytes()|] == c.Bytes()
    requires 0 < n && |c.Values()| <= n
    ensures Unpack(file, pos, n) == Prepend(c.Values(), Unpack(file, pos + |c.Bytes()|, n - |c.Values()|))
  {
    hide Unpack, Taken, Fill;
    var all := file[pos..pos + |c.Bytes()|];
    assert all[0] == file[pos];
    UnpackStep(file, pos, n);
    match c {
      case Literals(bytes) =>
        TakenIs(file, pos + 1, |bytes|);
        assert all[1..] == bytes;
      case Repeated(v, k) =>
        assert all[1] == file[pos + 1];
      case NoOp =>
        NothingWritten([], 0);
    }
  }

  lemma PackedHead(packets: seq<Packet>)
    requires AllOk(packets) && packets != []
    ensures packets[0].Ok() && AllOk(packets[1..])
    ensures Packed(packets) == packets[0].Bytes() + Packed(packets[1..])
    ensures Coded(packets) == packets[0].Values() + Coded(packets[1..])
  {}

  /** Any packing decodes to the values it was made for, whatever follows. */
  lemma {:induction false} PackBitsRoundTrip(file: seq<byte>, pos: nat, packets: seq<Packet>)
    requires AllOk(packets) && pos + |Packed(packets)| <= |file|
             && file[pos..pos + |Packed(packets)|] == Packed(packets)
    ensures Unpack(file, pos, |Coded(packets)|) == Pixels(Coded(packets))
    decreases |packets|
  {
    hide Unpack, Packet.Bytes, Packet.Values, AllOk;
    if |Coded(packets)| == 0 {
      Finished(file, pos, []);
      NothingWritten([], 0);
    } else {
      PackedHead(packets);
      var c, rest := packets[0], packets[1..];
      var n := |c.Bytes()|;
      var all := file[pos..pos + |Packed(packets)|];
      assert all[..n] == c.Bytes() == file[pos..pos + n];
      assert all[n..] == Packed(rest) == file[pos + n..pos + n + |Packed(rest)|];
      PacketStep(file, pos, c, |Coded(packets)|);
      PackBitsRoundTrip(file, pos + n, rest);
    }
  }

  // ----- what is accepted -----

  lemma {:induction false} TakenJoin(file: seq<byte>, pos: nat, a: nat, b: nat)
    ensures Taken(file, pos, a + b) == Taken(file, pos, a) + Taken(file, Next(file, pos, a), b)
  {
    hide Peek, Next;
    if b > 0 {
      TakenJoin(file, pos, a, b - 1);
      PeekNextAt(file, pos, a, b - 1);
    }
  }

  lemma PeekNextAt(file: seq<byte>, pos: nat, a: nat, b: nat)
    ensures Peek(file, Next(file, pos, a) + b) == Peek(file, pos + a + b)
  {}

  /** The packet that is read next with `n` values to go. */
  function PacketAt(file: seq<byte>, pos: nat): (c: Packet)
    ensures c.Ok()
  {
    var len, p := Peek(file, pos), Next(file, pos, 1);
    if len == NO_OP then NoOp
    else if len < NO_OP then Literals(Taken(file, p, len + 1)) else Repeated(Peek(file, p), 257 - len)
  }

  lemma PacketThere(file: seq<byte>, pos: nat)
    ensures Taken(file, pos, |PacketAt(file, pos).Bytes()|) == PacketAt(file, pos).Bytes()
  {
    hide Peek, Next, Taken;
    TakenOne(file, pos);
    match PacketAt(file, pos) {
      case Literals(bytes) => TakenJoin(file, pos, 1, |bytes|);
      case Repeated(_, _) =>
        TakenJoin(file, pos, 1, 1);
        TakenOne(file, Next(file, pos, 1));
      case NoOp =>
    }
  }

  lemma TakenOne(file: seq<byte>, pos: nat)
    ensures Taken(file, pos, 1) == [Peek(file, pos)]
  {
    hide Peek;
    assert Taken(file, pos, 0) == [];
  }

  /** Reading it, unless it overruns. */
  lemma PacketRead(file: seq<byte>, pos: nat, n: nat)
    requires n > 0
    ensures var c := PacketAt(file, pos);
            Unpack(file, pos, n) == if |c.Values()| > n then Corrupt
                                    else Prepend(c.Values(),
                                      Unpack(file, Next(file, pos, |c.Bytes()|), n - |c.Values()|))
  {
    hide Peek, Next, Unpack, Taken, Fill;
    UnpackStep(file, pos, n);
    NextNext(file, pos, 1);
    NextNext(file, pos, Peek(file, pos) + 1);
    NothingWritten([], 0);
  }

  lemma NextNext(file: seq<byte>, pos: nat, k: nat)
    ensures Next(file, Next(file, pos, 1), k) == Next(file, pos, 1 + k)
  {}

  /** Whatever is accepted is a packing of the values it gives, where the file, should it end too early,
      continues with zeros. */
  lemma {:induction false} PacketsFound(file: seq<byte>, pos: nat, n: nat) returns (packets: seq<Packet>)
    requires Unpack(file, pos, n).Pixels?
    ensures AllOk(packets) && Taken(file, pos, |Packed(packets)|) == Packed(packets)
    ensures Unpack(file, pos, n) == Pixels(Coded(packets))
    decreases n, if pos < |file| then |file| - pos else 0
  {
    hide Peek, Unpack, Taken, Fill, Packet.Bytes, Packet.Values, PacketAt;
    if n == 0 {
      packets := [];
      Finished(file, pos, []);
      NothingWritten([], 0);
      NoneTaken(file, pos);
    } else {
      var c := PacketAt(file, pos);
      PacketRead(file, pos, n);
      PacketThere(file, pos);
      Progress(file, pos);
      var next := Next(file, pos, |c.Bytes()|);
      var rest := PacketsFound(file, next, n - |c.Values()|);
      packets := [c] + rest;
      assert packets[1..] == rest;
      TakenJoin(file, pos, |c.Bytes()|, |Packed(rest)|);
    }
  }

  lemma NoneTaken(file: seq<byte>, pos: nat)
    ensures Taken(file, pos, 0) == []
  {}

  /** A packet gives values or is a byte of the file. */
  lemma Progress(file: seq<byte>, pos: nat)
    ensures var c := PacketAt(file, pos);
            |c.Values()| > 0 || (pos < |file| && Next(file, pos, |c.Bytes()|) == pos + 1)
  {}
}
