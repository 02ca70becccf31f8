/** GIF colour tables: what the file says of an index, and what a pixel drawn with it shows. */
module GifColors {
  import opened Bits
  import opened Context
  import opened GifCanvas
  import opened PixelGrid

  const NO_INDEX := -1

  /** The table holds the red, green and blue bytes of the file's table of `n` entries at `pos`, all of them
      opaque but that of `transp`. */
  ghost predicate FromFile(pal: seq<byte>, file: seq<byte>, pos: nat, n: nat, transp: int)
  {
    && |pal| == TABLE_BYTES && n <= 256
    && forall i: nat :: i < n ==> EntryFrom(pal, file, pos, i, transp)
  }

  predicate EntryFrom(pal: seq<byte>, file: seq<byte>, pos: nat, i: nat, transp: int)
    requires |pal| == TABLE_BYTES && i < 256
  {
    && pal[4 * i + 2] == Peek(file, pos + 3 * i) && pal[4 * i + 1] == Peek(file, pos + 3 * i + 1)
    && pal[4 * i] == Peek(file, pos + 3 * i + 2) && pal[4 * i + 3] == if i == transp then 0 else 255
  }

  /** `stbi__gif_parse_colortable`. */
  method ParseColorTable(s: Source, pal: array<byte>, num_entries: nat, transp: int)
    requires pal.Length == TABLE_BYTES && num_entries <= 256
    modifies s, pal
    ensures s.img_buffer == Next(s.data, old(s.img_buffer), 3 * num_entries)
    ensures FromFile(pal[..], s.data, old(s.img_buffer), num_entries, transp)
    ensures pal[4 * num_entries..] == old(pal[4 * num_entries..])
  {
    hide Peek, EntryFrom;
    ghost var pos := s.img_buffer;
    for i := 0 to num_entries
      invariant s.img_buffer == Next(s.data, pos, 3 * i) && FromFile(pal[..], s.data, pos, i, transp)
      invariant pal[4 * num_entries..] == old(pal[4 * num_entries..])
    {
      ghost var was := pal[..];
      var red := s.Get8();
      var green := s.Get8();
      var blue := s.Get8();
      PeekAt(s.data, pos, 3 * i);
      PeekAt(s.data, pos, 3 * i + 1);
      PeekAt(s.data, pos, 3 * i + 2);
      SetEntry(pal, i, red, green, blue, transp == i);
      EntrySet(was, pal[..], s.data, pos, i, transp);
    }
  }

  /** The four stores. */
  method SetEntry(pal: array<byte>, i: nat, red: byte, green: byte, blue: byte, transparent: bool)
    requires pal.Length == TABLE_BYTES && i < 256
    modifies pal
    ensures pal[4 * i + 2] == red && pal[4 * i + 1] == green && pal[4 * i] == blue
    ensures pal[4 * i + 3] == if transparent then 0 else 255
    ensures pal[..4 * i] == old(pal[..4 * i]) && pal[4 * i + 4..] == old(pal[4 * i + 4..])
  {
    pal[4 * i + 2] := red;
    pal[4 * i + 1] := green;
    pal[4 * i] := blue;
    pal[4 * i + 3] := if transparent then 0 else 255;
  }

  /** Byte `k` behind `pos` is what the reader gets there, past the end of the file too. */
  lemma PeekAt(file: seq<byte>, pos: nat, k: nat)
    ensures Peek(file, Next(file, pos, k)) == Peek(file, pos + k)
    ensures Next(file, Next(file, pos, k), 1) == Next(file, pos, k + 1)
  {}

  lemma EntrySet(was: seq<byte>, pal: seq<byte>, file: seq<byte>, pos: nat, i: nat, transp: int)
    requires FromFile(was, file, pos, i, transp) && i < 256 && |pal| == TABLE_BYTES
    requires pal[..4 * i] == was[..4 * i]
    requires pal[4 * i + 2] == Peek(file, pos + 3 * i) && pal[4 * i + 1] == Peek(file, pos + 3 * i + 1)
             && pal[4 * i] == Peek(file, pos + 3 * i + 2) && pal[4 * i + 3] == if i == transp then 0 else 255
    ensures FromFile(pal, file, pos, i + 1, transp)
  {
    hide Peek;
    forall j: nat | j < i ensures EntryFrom(pal, file, pos, j, transp) {
      assert EntryFrom(was, file, pos, j, transp);
      forall k: nat | k < 4 * i ensures pal[k] == was[k] { assert pal[..4 * i][k] == was[..4 * i][k]; }
    }
  }

  /** A graphic control extension moves the transparency of the global table from one index to another. */
  method MoveTransparent(pal: array<byte>, transparent: int, next: int, ghost file: seq<byte>, ghost pos: nat,
        ghost n: nat)
    requires FromFile(pal[..], file, pos, n, transparent) && NO_INDEX <= transparent < 256 && NO_INDEX <= next < 256
    modifies pal
    ensures FromFile(pal[..], file, pos, n, next)
  {
    hide Peek;
    ghost var was := pal[..];
    if transparent >= 0 { pal[4 * transparent + 3] := 255; }
    if next >= 0 { pal[4 * next + 3] := 0; }
    forall i: nat | i < n ensures EntryFrom(pal[..], file, pos, i, next) {
      assert EntryFrom(was, file, pos, i, transparent);
    }
  }

  /** A pixel takes the red, green and blue of its index and is opaque; the transparent index leaves it. */
  lemma PaintedAs(pal: seq<byte>, file: seq<byte>, pos: nat, n: nat, transp: int, index: byte, shown: seq<byte>)
    requires FromFile(pal, file, pos, n, transp) && index < n
    ensures Paint(pal, index, shown) ==
            if index == transp then shown
            else [Peek(file, pos + 3 * index), Peek(file, pos + 3 * index + 1), Peek(file, pos + 3 * index + 2), 255]
  {
    hide Peek;
    assert EntryFrom(pal, file, pos, index, transp);
  }

  /** Pixel `k` of the canvas shows what the file's table at `at` says of index `c`: red, green and blue, and
      opaque; a pixel drawn with the transparent index is as it was before. */
  ghost predicate Shows(out: seq<byte>, before: seq<byte>, k: nat, file: seq<byte>, at: nat, transp: int, c: byte)
  {
    && 4 * k + 4 <= |out| == |before|
    && out[4 * k..4 * k + 4] == if c == transp then before[4 * k..4 * k + 4]
                                else [Peek(file, at + 3 * c), Peek(file, at + 3 * c + 1), Peek(file, at + 3 * c + 2),
                                  255]
  }

  lemma PaintShows(out: seq<byte>, before: seq<byte>, k: nat, pal: seq<byte>, file: seq<byte>, at: nat, n: nat,
        transp: int, c: byte)
    requires FromFile(pal, file, at, n, transp) && c < n && 4 * k + 4 <= |out| == |before|
    requires PixelAt(out, 4, k) == Paint(pal, c, PixelAt(before, 4, k))
    ensures Shows(out, before, k, file, at, transp, c)
  {
    hide Peek, Paint, FromFile;
    PaintedAs(pal, file, at, n, transp, c, PixelAt(before, 4, k));
  }
}
