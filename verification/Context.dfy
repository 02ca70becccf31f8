/** The byte source every decoder reads: `stbi__context` over a buffer in memory. */
module Context {
  import opened Bits

  /** What `stbi__get8` returns at `pos`: zero past the end. */
  function Peek(file: seq<byte>, pos: nat): (b: byte)
    ensures pos >= |file| ==> b == 0
  {
    if pos < |file| then file[pos] else 0
  }

  /** Where the reader stands after `n` calls of `stbi__get8`. */
  function Next(file: seq<byte>, pos: nat, n: nat): (p: nat)
    ensures p >= pos
    ensures pos < |file| && n > 0 ==> p > pos
    ensures pos <= |file| ==> p <= |file|
  {
    if pos >= |file| then pos else if pos + n <= |file| then pos + n else |file|
  }

  function Be16(file: seq<byte>, pos: nat): (v: nat)
    ensures v < 0x1_0000
    ensures pos >= |file| ==> v == 0
  {
    Peek(file, pos) as int * 256 + Peek(file, pos + 1) as int
  }

  function Be32(file: seq<byte>, pos: nat): (v: nat)
    ensures v <= UINT_MAX
    ensures pos >= |file| ==> v == 0
  {
    Be16(file, pos) * 0x1_0000 + Be16(file, pos + 2)
  }

  /** `stbi__skip`: a length above `INT_MAX` is a negative argument and moves to the end. */
  function Skipped(file: seq<byte>, pos: nat, n: nat): nat
  {
    if n == 0 then pos else if n > INT_MAX then |file| else pos + n
  }

  /** `n` bytes from `pos`, zeros past the end of the file. */
  function Taken(file: seq<byte>, pos: nat, n: nat): (s: seq<byte>)
    ensures |s| == n
  {
    if n == 0 then [] else Taken(file, pos, n - 1) + [Peek(file, pos + n - 1)]
  }

  lemma {:induction false} TakenHead(file: seq<byte>, pos: nat, n: nat)
    requires n > 0
    ensures Taken(file, pos, n) == [Peek(file, pos)] + Taken(file, Next(file, pos, 1), n - 1)
  {
    if n > 1 {
      TakenHead(file, pos, n - 1);
      if pos < |file| {
        assert Next(file, pos, 1) + (n - 1) - 1 == pos + n - 1;
      }
    }
  }

  class Source {
    const data: seq<byte>
    var img_buffer: nat

    constructor (buffer: seq<byte>)
      ensures data == buffer && img_buffer == 0
    {
      data, img_buffer := buffer, 0;
    }

    method Get8() returns (b: byte)
      modifies this
      ensures b == Peek(data, old(img_buffer)) && img_buffer == Next(data, old(img_buffer), 1)
    {
      if img_buffer < |data| {
        b := data[img_buffer];
        img_buffer := img_buffer + 1;
      } else {
        b := 0;
      }
    }

    method Get16be() returns (v: nat)
      modifies this
      ensures v == Be16(data, old(img_buffer)) && img_buffer == Next(data, old(img_buffer), 2)
    {
      var z := Get8();
      var y := Get8();
      v := z as int * 256 + y as int;
    }

    method Get32be() returns (v: nat)
      modifies this
      ensures v == Be32(data, old(img_buffer)) && img_buffer == Next(data, old(img_buffer), 4)
    {
      var z := Get16be();
      var y := Get16be();
      v := z * 0x1_0000 + y;
    }

    method Skip(n: int)
      modifies this
      ensures img_buffer == if n == 0 then old(img_buffer) else if n < 0 then |data| else old(img_buffer) + n
    {
      if n == 0 { return; }
      if n < 0 {
        img_buffer := |data|;
        return;
      }
      img_buffer := img_buffer + n;
    }

    /** `stbi__getn` into `buffer` at `at`. */
    method Getn(buffer: array<byte>, at: nat, n: nat) returns (ok: bool)
      requires at + n <= buffer.Length
      modifies this, buffer
      ensures ok <==> old(img_buffer) + n <= |data|
      ensures ok ==> img_buffer == old(img_buffer) + n
                     && buffer[..at + n] == old(buffer[..at]) + data[old(img_buffer)..old(img_buffer) + n]
    {
      if img_buffer + n > |data| { return false; }
      ghost var before := buffer[..at];
      for i := 0 to n
        invariant img_buffer == old(img_buffer) && buffer[..at + i] == before + data[img_buffer..img_buffer + i]
      {
        buffer[at + i] := data[img_buffer + i];
        assert buffer[..at + i + 1] == buffer[..at + i] + [data[img_buffer + i]];
      }
      img_buffer := img_buffer + n;
      ok := true;
    }
  }
}
