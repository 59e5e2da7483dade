/**
 * ApplePngNormalize.normalize (src/sticker_convert/utils/media/apple_png_normalize.py):
 * turns an Apple "CgBI" PNG into a standard one.  The file is walked chunk
 * by chunk in the layout of section 5.3 of the W3C PNG Specification
 * (second edition): a 4-byte big-endian length, a 4-byte type, the data
 * and a 4-byte CRC.  The CgBI chunk is dropped, the IDAT payloads are
 * gathered, the red and blue byte of every pixel are exchanged after
 * inflating, and one IDAT and an IEND are written at the end.  zlib and
 * CRC-32 are parameters.
 */
module ApplePng {
  import opened Base

  // ---------------------------------------------------------------------
  // Big-endian 32-bit integers: struct.pack / struct.unpack(">L")
  // ---------------------------------------------------------------------

  function Be32(n: u32): (b: seq<byte>)
    ensures |b| == 4
  {
    var n1 := n as int / 0x100;
    var n2 := n1 / 0x100;
    [(n2 / 0x100) as byte, (n2 % 0x100) as byte, (n1 % 0x100) as byte, (n as int % 0x100) as byte]
  }

  function ReadBe32(b: seq<byte>): u32
    requires |b| == 4
  {
    (((b[0] as int * 0x100 + b[1] as int) * 0x100 + b[2] as int) * 0x100 + b[3] as int) as u32
  }

  lemma DivMod256(m: int, d: int)
    requires 0 <= d < 0x100
    ensures (m * 0x100 + d) / 0x100 == m && (m * 0x100 + d) % 0x100 == d
  {
  }

  lemma ReadWriteBe32(n: u32)
    ensures ReadBe32(Be32(n)) == n
  {
    var n1 := n as int / 0x100;
    var n2 := n1 / 0x100;
    assert n as int == n1 * 0x100 + n as int % 0x100;
    assert n1 == n2 * 0x100 + n1 % 0x100;
    assert n2 == (n2 / 0x100) * 0x100 + n2 % 0x100;
  }

  lemma WriteReadBe32(b: seq<byte>)
    requires |b| == 4
    ensures Be32(ReadBe32(b)) == b
  {
    var m2 := b[0] as int * 0x100 + b[1] as int;
    var m1 := m2 * 0x100 + b[2] as int;
    var n := m1 * 0x100 + b[3] as int;
    DivMod256(m1, b[3] as int);
    DivMod256(m2, b[2] as int);
    DivMod256(b[0] as int, b[1] as int);
    assert ReadBe32(b) as int == n;
  }

  // ---------------------------------------------------------------------
  // Chunks
  // ---------------------------------------------------------------------

  const Signature: seq<byte> := [0x89, 0x50, 0x4E, 0x47, 0x0D, 0x0A, 0x1A, 0x0A]
  const IHDR: seq<byte> := [0x49, 0x48, 0x44, 0x52]
  const IDAT: seq<byte> := [0x49, 0x44, 0x41, 0x54]
  const IEND: seq<byte> := [0x49, 0x45, 0x4E, 0x44]
  const CgBI: seq<byte> := [0x43, 0x67, 0x42, 0x49]

  /** The four chunk types the walk looks at are different. */
  lemma TypesDistinct()
    ensures IHDR != IDAT && IHDR != IEND && IHDR != CgBI && IDAT != IEND && IDAT != CgBI && IEND != CgBI
  {
    assert IHDR[1] != IDAT[1] && IHDR[1] != IEND[1] && IHDR[0] != CgBI[0];
    assert IDAT[1] != IEND[1] && IDAT[0] != CgBI[0] && IEND[0] != CgBI[0];
  }

  datatype Chunk = Chunk(ctype: seq<byte>, data: seq<byte>, crc: u32)

  /** A chunk that can be written: a 4-byte type and a length that fits 32 bits. */
  predicate WellFormed(c: Chunk)
  {
    |c.ctype| == 4 && |c.data| < 0x1_0000_0000
  }

  /** The chunk's bytes: length, type, data, CRC. */
  function Encode(c: Chunk): (b: seq<byte>)
    requires WellFormed(c)
    ensures |b| == |c.data| + 12
  {
    Be32(|c.data| as u32) + c.ctype + c.data + Be32(c.crc)
  }

  /**
   * Lines 28-33 at a cursor: the rest of the file from the cursor on.  The
   * length and CRC slices must be 4 bytes long for struct.unpack, which
   * otherwise raises struct.error; when the CRC slice is whole, so are the
   * type and the data.
   */
  function ReadChunk(rest: seq<byte>): (r: Result<Chunk>)
    ensures r.Err? ==> r.error == StructError
    ensures r.Ok? ==> WellFormed(r.value) && |r.value.data| + 12 <= |rest|
  {
    if |rest| < 4 then Err(StructError)
    else
      var length := ReadBe32(rest[..4]) as int;
      if |rest| < length + 12 then Err(StructError)
      else Ok(Chunk(rest[4..8], rest[8..8 + length], ReadBe32(rest[length + 8..length + 12])))
  }

  /** A chunk that was read is the bytes it was read from, so copying it is verbatim. */
  lemma ReadChunkVerbatim(rest: seq<byte>)
    requires ReadChunk(rest).Ok?
    ensures rest[..|ReadChunk(rest).value.data| + 12] == Encode(ReadChunk(rest).value)
  {
    var c := ReadChunk(rest).value;
    var n := |c.data|;
    WriteReadBe32(rest[..4]);
    WriteReadBe32(rest[n + 8..n + 12]);
    assert rest[..n + 12] == rest[..4] + rest[4..8] + rest[8..8 + n] + rest[n + 8..n + 12];
  }

  /** Reading a written chunk gives it back, whatever follows it. */
  lemma ReadEncoded(c: Chunk, more: seq<byte>)
    requires WellFormed(c)
    ensures ReadChunk(Encode(c) + more) == Ok(c)
  {
    var rest := Encode(c) + more;
    var n := |c.data|;
    ReadWriteBe32(n as u32);
    ReadWriteBe32(c.crc);
    assert rest[..4] == Be32(n as u32);
    assert rest[4..8] == c.ctype;
    assert rest[8..8 + n] == c.data;
    assert rest[n + 8..n + 12] == Be32(c.crc);
  }

  /** Every chunk of the list is well formed. */
  predicate AllWellFormed(cs: seq<Chunk>)
  {
    cs == [] || (WellFormed(cs[0]) && AllWellFormed(cs[1..]))
  }

  function Serialize(cs: seq<Chunk>): seq<byte>
    requires AllWellFormed(cs)
  {
    if cs == [] then [] else Encode(cs[0]) + Serialize(cs[1..])
  }

  // ---------------------------------------------------------------------
  // Swapping red and blue (lines 52-64), on a sequence
  // ---------------------------------------------------------------------

  /** The step from one row's first pixel byte to the next: the filter byte and four bytes a pixel. */
  function Stride(width: nat): nat { 1 + 4 * width }

  /** The pixel bytes of a row starting at off fit in n bytes. */
  predicate RowFits(n: int, off: int, width: nat)
  {
    off >= 0 && (width == 0 || off + 4 * width - 1 <= n)
  }

  /** `rows` rows, the first starting at off, fit in n bytes. */
  predicate ImageFits(n: int, off: int, width: nat, rows: nat)
    decreases rows
  {
    rows == 0 || (RowFits(n, off, width) && ImageFits(n, off + Stride(width), width, rows - 1))
  }

  function Exchange(s: seq<byte>, i: nat, j: nat): (r: seq<byte>)
    requires i < |s| && j < |s|
    ensures |r| == |s|
  {
    s[i := s[j]][j := s[i]]
  }

  /** The inner loop from pixel x on: bytes off+4x and off+4x+2 are exchanged. */
  function SwapRow(s: seq<byte>, off: nat, x: nat, width: nat): (r: seq<byte>)
    requires x <= width && RowFits(|s|, off, width)
    ensures |r| == |s|
    decreases width - x
  {
    if x == width then s else SwapRow(Exchange(s, off + 4 * x, off + 4 * x + 2), off, x + 1, width)
  }

  /** The outer loop over `rows` rows, the first starting at off. */
  function SwapRows(s: seq<byte>, off: nat, width: nat, rows: nat): (r: seq<byte>)
    requires ImageFits(|s|, off, width, rows)
    ensures |r| == |s|
    decreases rows
  {
    if rows == 0 then s else SwapRows(SwapRow(s, off, 0, width), off + Stride(width), width, rows - 1)
  }

  /** Where row k begins when row 0 begins at off. */
  function RowStart(off: nat, width: nat, k: nat): nat
    decreases k
  {
    if k == 0 then off else RowStart(off + Stride(width), width, k - 1)
  }

  /** Row k of the image starts at 1 + k * (1 + 4 * width), as the running offset says. */
  lemma {:induction false} RowStartIs(off: nat, width: nat, k: nat)
    ensures RowStart(off, width, k) == off + k * (1 + 4 * width)
    decreases k
  {
    if k > 0 {
      RowStartIs(off + Stride(width), width, k - 1);
      assert k * (1 + 4 * width) == (k - 1) * (1 + 4 * width) + (1 + 4 * width);
    }
  }

  /** Byte i is the red or the blue byte of one of the rows' pixels. */
  predicate IsRedOrBlue(i: int, off: nat, width: nat, rows: nat)
    decreases rows
  {
    rows > 0
    && ((off <= i < off + 4 * width && ((i - off) % 4 == 0 || (i - off) % 4 == 2))
        || IsRedOrBlue(i, off + Stride(width), width, rows - 1))
  }

  /** Inside one row: pixel x has its red and blue exchanged when x is at least the start. */
  lemma {:induction false} SwapRowPixel(s: seq<byte>, off: nat, x0: nat, width: nat, x: nat)
    requires x0 <= x < width && RowFits(|s|, off, width)
    ensures SwapRow(s, off, x0, width)[off + 4 * x] == s[off + 4 * x + 2]
    ensures SwapRow(s, off, x0, width)[off + 4 * x + 2] == s[off + 4 * x]
    decreases width - x0
  {
    var t := Exchange(s, off + 4 * x0, off + 4 * x0 + 2);
    if x0 < x {
      SwapRowPixel(t, off, x0 + 1, width, x);
    } else {
      SwapRowKeeps(t, off, x0 + 1, width, off + 4 * x);
      SwapRowKeeps(t, off, x0 + 1, width, off + 4 * x + 2);
    }
  }

  /** Inside one row: a byte that is not a red or blue byte from pixel x0 on is left alone. */
  lemma {:induction false} SwapRowKeeps(s: seq<byte>, off: nat, x0: nat, width: nat, i: nat)
    requires x0 <= width && RowFits(|s|, off, width) && i < |s|
    requires !(off + 4 * x0 <= i < off + 4 * width && ((i - off) % 4 == 0 || (i - off) % 4 == 2))
    ensures SwapRow(s, off, x0, width)[i] == s[i]
    decreases width - x0
  {
    if x0 < width {
      var t := Exchange(s, off + 4 * x0, off + 4 * x0 + 2);
      SwapRowKeeps(t, off, x0 + 1, width, i);
    }
  }

  /**
   * Pixel x of row k (0-based) has its red byte, at RowStart + 4x, and its
   * blue byte, two further on, exchanged.
   */
  lemma {:induction false} PixelSwapped(s: seq<byte>, off: nat, width: nat, rows: nat, k: nat, x: nat)
    requires ImageFits(|s|, off, width, rows) && k < rows && x < width
    ensures var p := RowStart(off, width, k);
            && p + 4 * x + 2 < |s|
            && SwapRows(s, off, width, rows)[p + 4 * x] == s[p + 4 * x + 2]
            && SwapRows(s, off, width, rows)[p + 4 * x + 2] == s[p + 4 * x]
    decreases rows
  {
    var t := SwapRow(s, off, 0, width);
    if k == 0 {
      SwapRowPixel(s, off, 0, width, x);
      NotBefore(off + 4 * x, off + Stride(width), width, rows - 1);
      NotBefore(off + 4 * x + 2, off + Stride(width), width, rows - 1);
      SwapRowsKeeps(t, off + Stride(width), width, rows - 1, off + 4 * x);
      SwapRowsKeeps(t, off + Stride(width), width, rows - 1, off + 4 * x + 2);
    } else {
      PixelSwapped(t, off + Stride(width), width, rows - 1, k - 1, x);
      var p := RowStart(off, width, k);
      RowStartAfter(off + Stride(width), width, k - 1);
      SwapRowKeeps(s, off, 0, width, p + 4 * x);
      SwapRowKeeps(s, off, 0, width, p + 4 * x + 2);
    }
  }

  lemma {:induction false} RowStartAfter(off: nat, width: nat, k: nat)
    ensures RowStart(off, width, k) >= off
    decreases k
  {
    if k > 0 {
      RowStartAfter(off + Stride(width), width, k - 1);
    }
  }

  /** Every byte that is not a red or blue byte (filter bytes, green, alpha, the rest) is left alone. */
  lemma {:induction false} SwapRowsKeeps(s: seq<byte>, off: nat, width: nat, rows: nat, i: nat)
    requires ImageFits(|s|, off, width, rows) && i < |s|
    requires !IsRedOrBlue(i, off, width, rows)
    ensures SwapRows(s, off, width, rows)[i] == s[i]
    decreases rows
  {
    if rows > 0 {
      var t := SwapRow(s, off, 0, width);
      SwapRowKeeps(s, off, 0, width, i);
      SwapRowsKeeps(t, off + Stride(width), width, rows - 1, i);
    }
  }

  /** The filter byte in front of each row is never a red or blue byte. */
  lemma {:induction false} FilterByteNotSwapped(off: nat, width: nat, rows: nat, k: nat)
    requires off >= 1 && k < rows
    ensures !IsRedOrBlue(RowStart(off, width, k) - 1, off, width, rows)
    decreases rows
  {
    if k == 0 {
      NotBefore(off - 1, off, width, rows);
    } else {
      RowStartAfter(off + Stride(width), width, k - 1);
      FilterByteNotSwapped(off + Stride(width), width, rows - 1, k - 1);
    }
  }

  lemma {:induction false} NotBefore(i: int, off: nat, width: nat, rows: nat)
    requires i < off
    ensures !IsRedOrBlue(i, off, width, rows)
    decreases rows
  {
    if rows > 0 {
      NotBefore(i, off + Stride(width), width, rows - 1);
    }
  }

  // ---------------------------------------------------------------------
  // Swapping red and blue, in place
  // ---------------------------------------------------------------------

  /** The nested loops of lines 57-64 on the bytearray. */
  method SwapRedBlue(a: array<byte>, width: nat, height: nat)
    requires ImageFits(a.Length, 1, width, height)
    modifies a
    ensures a[..] == SwapRows(old(a[..]), 1, width, height)
  {
    ghost var start := a[..];
    var offset := 1;
    for y := 0 to height
      invariant offset >= 1 && ImageFits(a.Length, offset, width, height - y)
      invariant SwapRows(a[..], offset, width, height - y) == SwapRows(start, 1, width, height)
    {
      ghost var row := a[..];
      for x := 0 to width
        invariant SwapRow(a[..], offset, x, width) == SwapRow(row, offset, 0, width)
      {
        ghost var before := a[..];
        a[offset + 4 * x], a[offset + 4 * x + 2] := a[offset + 4 * x + 2], a[offset + 4 * x];
        assert a[..] == Exchange(before, offset + 4 * x, offset + 4 * x + 2);
      }
      offset := offset + 1 + 4 * width;
    }
  }

  // ---------------------------------------------------------------------
  // The walk over the chunks (lines 26-95)
  // ---------------------------------------------------------------------

  /** zlib and CRC-32, which the model does not interpret. */
  datatype Codec = Codec(
    inflate: (seq<byte>, int) -> Option<seq<byte>>,  // zlib.decompress(data, -8, bufsize); None is zlib.error
    deflate: seq<byte> -> seq<byte>,                 // zlib.compress
    crc: seq<byte> -> u32)                           // zlib.crc32

  datatype Dims = Dims(width: nat, height: nat)

  /** Lines 37-39: width and height from the IHDR data; fewer than 8 bytes is a struct.error. */
  function ReadHeader(data: seq<byte>): (r: Result<Dims>)
    ensures r.Err? <==> |data| < 8
  {
    if |data| < 8 then Err(StructError) else Ok(Dims(ReadBe32(data[..4]) as nat, ReadBe32(data[4..8]) as nat))
  }

  /** Line 72: the CRC brought into [0, 2^32). */
  function Normalised(c: int): (r: u32)
    ensures 0 <= c < 0x1_0000_0000 ==> r as int == c
  {
    ((c + 0x1_0000_0000) % 0x1_0000_0000) as u32
  }

  /** The IDAT chunk of lines 68-77; crc32(data, crc32("IDAT")) is the CRC of type and data. */
  function IdatChunk(packed: seq<byte>, z: Codec): Chunk
  {
    Chunk(IDAT, packed, Normalised(z.crc(IDAT + packed) as int))
  }

  /** The IEND chunk of lines 79-82. */
  function IendChunk(z: Codec): Chunk
  {
    Chunk(IEND, [], z.crc(IEND))
  }

  /**
   * Lines 52-83, once IEND is reached after a CgBI chunk.  No IHDR before
   * means width was never bound; a short inflated buffer makes the swap
   * index out of range; a compressed length of 2^32 or more makes
   * struct.pack raise.
   */
  function Finish(out: seq<byte>, idat: seq<byte>, dims: Option<Dims>, z: Codec): (r: Result<seq<byte>>)
    ensures r.Ok? ==> |r.value| >= |out| + 24 && r.value[..|out|] == out
  {
    if dims.None? then Err(Unbound)
    else
      var w, h := dims.value.width, dims.value.height;
      match z.inflate(idat, w * h * 4 + h)
      case None => Err(ZlibError)
      case Some(raw) =>
        if !ImageFits(|raw|, 1, w, h) then Err(IndexOut)
        else
          var packed := z.deflate(SwapRows(raw, 1, w, h));
          if |packed| >= 0x1_0000_0000 then Err(StructError)
          else Ok(out + Encode(IdatChunk(packed, z)) + Encode(IendChunk(z)))
  }

  /**
   * The loop state after the chunks before `rest`: the output so far, the
   * gathered IDAT data, whether CgBI was seen and the last IHDR's size.
   * An empty rest ends the loop and returns what was written.
   */
  function Walk(orig: seq<byte>, rest: seq<byte>, out: seq<byte>, idat: seq<byte>, found: bool, dims: Option<Dims>,
                z: Codec): (r: Result<seq<byte>>)
    ensures r.Ok? ==> r.value == orig || (|out| <= |r.value| && r.value[..|out|] == out)
    decreases |rest|
  {
    if rest == [] then Ok(out)
    else
      match ReadChunk(rest)
      case Err(e) => Err(e)
      case Ok(c) =>
        var next := rest[|c.data| + 12..];
        var header := if c.ctype == IHDR then ReadHeader(c.data) else Ok(Dims(0, 0));
        if header.Err? then Err(header.error)
        else
          var dims' := if c.ctype == IHDR then Some(header.value) else dims;
          if c.ctype == IDAT then Walk(orig, next, out, idat + c.data, found, dims', z)
          else if c.ctype == IEND then (if found then Finish(out, idat, dims', z) else Ok(orig))
          else if c.ctype == CgBI then Walk(orig, next, out, idat, true, dims', z)
          else Walk(orig, next, out + Encode(c), idat, found, dims', z)
  }

  /** normalize(old_png) */
  function Normalize(png: seq<byte>, z: Codec): (r: Result<seq<byte>>)
    ensures !(|png| >= 8 && png[..8] == Signature) ==> r == Ok(png)
    ensures r.Ok? ==> r.value == png || (|r.value| >= 8 && r.value[..8] == Signature)
  {
    if |png| < 8 || png[..8] != Signature then Ok(png)
    else Walk(png, png[8..], png[..8], [], false, None, z)
  }

  // ---------------------------------------------------------------------
  // What the walk does to a file made of whole chunks
  // ---------------------------------------------------------------------

  /** The chunks that are copied: all but IDAT and CgBI. */
  function Kept(cs: seq<Chunk>): (r: seq<Chunk>)
    ensures AllWellFormed(cs) ==> AllWellFormed(r)
    ensures forall c :: c in r ==> c in cs && c.ctype != IDAT && c.ctype != CgBI
  {
    if cs == [] then []
    else if cs[0].ctype == IDAT || cs[0].ctype == CgBI then Kept(cs[1..])
    else
      var k := Kept(cs[1..]);
      assert ([cs[0]] + k)[1..] == k;
      [cs[0]] + k
  }

  /** The IDAT payloads in order. */
  function IdatData(cs: seq<Chunk>): seq<byte>
  {
    if cs == [] then [] else (if cs[0].ctype == IDAT then cs[0].data else []) + IdatData(cs[1..])
  }

  predicate HasCgBI(cs: seq<Chunk>)
  {
    cs != [] && (cs[0].ctype == CgBI || HasCgBI(cs[1..]))
  }

  /** The size in the last IHDR, or d when there is none. */
  function LastDims(cs: seq<Chunk>, d: Option<Dims>): Option<Dims>
    requires Passes(cs)
  {
    if cs == [] then d
    else LastDims(cs[1..], if cs[0].ctype == IHDR then Some(ReadHeader(cs[0].data).value) else d)
  }

  /** Chunks before the end that the walk reads without error and without stopping. */
  predicate Body(cs: seq<Chunk>)
  {
    AllWellFormed(cs) && Passes(cs)
  }

  /** No chunk is IEND and every IHDR holds a width and a height. */
  predicate Passes(cs: seq<Chunk>)
  {
    cs == [] || (cs[0].ctype != IEND && (cs[0].ctype == IHDR ==> |cs[0].data| >= 8) && Passes(cs[1..]))
  }

  lemma SerializeCons(cs: seq<Chunk>, more: seq<byte>)
    requires cs != [] && AllWellFormed(cs)
    ensures Serialize(cs) + more == Encode(cs[0]) + (Serialize(cs[1..]) + more)
  {
  }

  /**
   * From any loop state, the chunks of a body followed by an IEND chunk:
   * with a CgBI chunk seen, the output is the state's output, the kept
   * chunks verbatim and in order, then one IDAT of all the gathered data
   * and IEND; without one the original file comes back.  Whatever follows
   * the IEND chunk is never read.
   */
  lemma {:induction false} WalkToEnd(orig: seq<byte>, body: seq<Chunk>, end: Chunk, after: seq<byte>,
                                     out: seq<byte>, idat: seq<byte>, found: bool, dims: Option<Dims>, z: Codec)
    requires Body(body) && WellFormed(end) && end.ctype == IEND
    ensures Walk(orig, Serialize(body) + Encode(end) + after, out, idat, found, dims, z)
            == if found || HasCgBI(body)
               then Finish(out + Serialize(Kept(body)), idat + IdatData(body), LastDims(body, dims), z)
               else Ok(orig)
  {
    var rest := Serialize(body) + Encode(end) + after;
    if body == [] {
      assert rest == Encode(end) + after;
      WalkAtEnd(orig, end, after, out, idat, found, dims, z);
      assert out + Serialize(Kept(body)) == out && idat + IdatData(body) == idat;
      assert LastDims(body, dims) == dims && !HasCgBI(body);
    } else {
      var c := body[0];
      var tail := Serialize(body[1..]) + Encode(end) + after;
      SerializeCons(body, Encode(end) + after);
      assert rest == Encode(c) + tail;
      WalkStep(orig, c, tail, out, idat, found, dims, z);
      var dims' := if c.ctype == IHDR then Some(ReadHeader(c.data).value) else dims;
      var found' := found || c.ctype == CgBI;
      var out' := if c.ctype == IDAT || c.ctype == CgBI then out else out + Encode(c);
      var idat' := if c.ctype == IDAT then idat + c.data else idat;
      WalkToEnd(orig, body[1..], end, after, out', idat', found', dims', z);
      ConsState(body, out, idat, found, dims);
    }
  }

  /** The summary of a body splits into its first chunk's step and the summary of the rest. */
  lemma ConsState(body: seq<Chunk>, out: seq<byte>, idat: seq<byte>, found: bool, dims: Option<Dims>)
    requires body != [] && Body(body)
    ensures var c := body[0];
            var out' := if c.ctype == IDAT || c.ctype == CgBI then out else out + Encode(c);
            var idat' := if c.ctype == IDAT then idat + c.data else idat;
            var dims' := if c.ctype == IHDR then Some(ReadHeader(c.data).value) else dims;
            && Body(body[1..])
            && out + Serialize(Kept(body)) == out' + Serialize(Kept(body[1..]))
            && idat + IdatData(body) == idat' + IdatData(body[1..])
            && LastDims(body, dims) == LastDims(body[1..], dims')
            && (found || HasCgBI(body)) == ((found || c.ctype == CgBI) || HasCgBI(body[1..]))
  {
    ConsOutput(body, out, idat);
    ConsHeader(body, found, dims);
  }

  /** The copied bytes and the IDAT data of a body, split at its first chunk. */
  lemma ConsOutput(body: seq<Chunk>, out: seq<byte>, idat: seq<byte>)
    requires body != [] && AllWellFormed(body)
    ensures var c := body[0];
            && out + Serialize(Kept(body))
               == (if c.ctype == IDAT || c.ctype == CgBI then out else out + Encode(c)) + Serialize(Kept(body[1..]))
            && idat + IdatData(body) == (if c.ctype == IDAT then idat + c.data else idat) + IdatData(body[1..])
  {
    KeptCons(body);
    var c := body[0];
    var kept := Serialize(Kept(body[1..]));
    var data := IdatData(body[1..]);
    if !(c.ctype == IDAT || c.ctype == CgBI) {
      assert out + (Encode(c) + kept) == (out + Encode(c)) + kept;
    } else {
      assert Serialize(Kept(body)) == [] + kept == kept;
    }
    if c.ctype == IDAT {
      assert idat + (c.data + data) == (idat + c.data) + data;
    } else {
      assert IdatData(body) == [] + data == data;
    }
  }

  /** The size and the CgBI flag of a body, split at its first chunk. */
  lemma ConsHeader(body: seq<Chunk>, found: bool, dims: Option<Dims>)
    requires body != [] && Body(body)
    ensures var c := body[0];
            && Body(body[1..])
            && LastDims(body, dims) == LastDims(body[1..], if c.ctype == IHDR then Some(ReadHeader(c.data).value) else dims)
            && (found || HasCgBI(body)) == ((found || c.ctype == CgBI) || HasCgBI(body[1..]))
  {
  }

  /** Reaching an IEND chunk: the finish after a CgBI chunk, the original file otherwise. */
  lemma WalkAtEnd(orig: seq<byte>, end: Chunk, after: seq<byte>,
                  out: seq<byte>, idat: seq<byte>, found: bool, dims: Option<Dims>, z: Codec)
    requires WellFormed(end) && end.ctype == IEND
    ensures Walk(orig, Encode(end) + after, out, idat, found, dims, z)
            == if found then Finish(out, idat, dims, z) else Ok(orig)
  {
    ReadEncoded(end, after);
    assert Encode(end) + after != [];
  }

  /** An IEND chunk read at the cursor ends the walk. */
  lemma WalkEnd(orig: seq<byte>, rest: seq<byte>,
                out: seq<byte>, idat: seq<byte>, found: bool, dims: Option<Dims>, z: Codec)
    requires ReadChunk(rest).Ok? && ReadChunk(rest).value.ctype == IEND
    ensures Walk(orig, rest, out, idat, found, dims, z) == if found then Finish(out, idat, dims, z) else Ok(orig)
  {
    assert rest != [];
  }

  /** A chunk read at the cursor that does not end the walk updates the loop state and moves on. */
  lemma WalkRead(orig: seq<byte>, rest: seq<byte>,
                 out: seq<byte>, idat: seq<byte>, found: bool, dims: Option<Dims>, z: Codec)
    requires ReadChunk(rest).Ok?
    requires var c := ReadChunk(rest).value;
             c.ctype != IEND && (c.ctype == IHDR ==> |c.data| >= 8)
    ensures var c := ReadChunk(rest).value;
            Walk(orig, rest, out, idat, found, dims, z)
            == Walk(orig, rest[|c.data| + 12..],
                    if c.ctype == IDAT || c.ctype == CgBI then out else out + Encode(c),
                    if c.ctype == IDAT then idat + c.data else idat,
                    found || c.ctype == CgBI,
                    if c.ctype == IHDR then Some(ReadHeader(c.data).value) else dims, z)
  {
    assert rest != [];
  }

  /** An IDAT chunk read at the cursor adds its data to the gathered IDAT data. */
  lemma WalkIdat(orig: seq<byte>, rest: seq<byte>, c: Chunk, next: seq<byte>,
                 out: seq<byte>, idat: seq<byte>, found: bool, dims: Option<Dims>, z: Codec)
    requires ReadChunk(rest) == Ok(c) && c.ctype == IDAT && next == rest[|c.data| + 12..]
    ensures Walk(orig, rest, out, idat, found, dims, z) == Walk(orig, next, out, idat + c.data, found, dims, z)
  {
    TypesDistinct();
    WalkRead(orig, rest, out, idat, found, dims, z);
  }

  /** A CgBI chunk read at the cursor is dropped and marks the file as converted. */
  lemma WalkCgbi(orig: seq<byte>, rest: seq<byte>, c: Chunk, next: seq<byte>,
                 out: seq<byte>, idat: seq<byte>, found: bool, dims: Option<Dims>, z: Codec)
    requires ReadChunk(rest) == Ok(c) && c.ctype == CgBI && next == rest[|c.data| + 12..]
    ensures Walk(orig, rest, out, idat, found, dims, z) == Walk(orig, next, out, idat, true, dims, z)
  {
    TypesDistinct();
    WalkRead(orig, rest, out, idat, found, dims, z);
  }

  /** An IHDR chunk read at the cursor is copied and sets the size. */
  lemma WalkHeader(orig: seq<byte>, rest: seq<byte>, c: Chunk, next: seq<byte>,
                   out: seq<byte>, idat: seq<byte>, found: bool, dims: Option<Dims>, d: Dims, z: Codec)
    requires ReadChunk(rest) == Ok(c) && next == rest[|c.data| + 12..]
    requires c.ctype == IHDR && ReadHeader(c.data) == Ok(d)
    ensures Walk(orig, rest, out, idat, found, dims, z) == Walk(orig, next, out + Encode(c), idat, found, Some(d), z)
  {
    TypesDistinct();
    assert rest != [];
  }

  /** Any other chunk read at the cursor is copied. */
  lemma WalkCopy(orig: seq<byte>, rest: seq<byte>, c: Chunk, next: seq<byte>,
                 out: seq<byte>, idat: seq<byte>, found: bool, dims: Option<Dims>, z: Codec)
    requires ReadChunk(rest) == Ok(c) && next == rest[|c.data| + 12..]
    requires c.ctype != IHDR && c.ctype != IDAT && c.ctype != CgBI && c.ctype != IEND
    ensures Walk(orig, rest, out, idat, found, dims, z) == Walk(orig, next, out + Encode(c), idat, found, dims, z)
  {
    WalkRead(orig, rest, out, idat, found, dims, z);
  }

  /** One chunk that does not end the walk updates the loop state and moves on. */
  lemma WalkStep(orig: seq<byte>, c: Chunk, tail: seq<byte>,
                 out: seq<byte>, idat: seq<byte>, found: bool, dims: Option<Dims>, z: Codec)
    requires WellFormed(c) && c.ctype != IEND && (c.ctype == IHDR ==> |c.data| >= 8)
    ensures Walk(orig, Encode(c) + tail, out, idat, found, dims, z)
            == Walk(orig, tail,
                    if c.ctype == IDAT || c.ctype == CgBI then out else out + Encode(c),
                    if c.ctype == IDAT then idat + c.data else idat,
                    found || c.ctype == CgBI,
                    if c.ctype == IHDR then Some(ReadHeader(c.data).value) else dims, z)
  {
    var rest := Encode(c) + tail;
    ReadEncoded(c, tail);
    assert rest != [];
    assert rest[|c.data| + 12..] == tail;
  }

  lemma KeptCons(cs: seq<Chunk>)
    requires cs != [] && AllWellFormed(cs)
    ensures Serialize(Kept(cs)) == (if cs[0].ctype == IDAT || cs[0].ctype == CgBI then [] else Encode(cs[0])) + Serialize(Kept(cs[1..]))
    ensures IdatData(cs) == (if cs[0].ctype == IDAT then cs[0].data else []) + IdatData(cs[1..])
  {
    if !(cs[0].ctype == IDAT || cs[0].ctype == CgBI) {
      assert Kept(cs)[1..] == Kept(cs[1..]);
    }
  }

  /**
   * A standard file made of whole chunks ending in IEND: with a CgBI
   * chunk, the result is the signature, the kept chunks, one IDAT of the
   * swapped pixels and IEND; without one, the file is returned unchanged.
   */
  lemma NormalizeFile(body: seq<Chunk>, end: Chunk, after: seq<byte>, z: Codec)
    requires Body(body) && WellFormed(end) && end.ctype == IEND
    ensures var png := Signature + Serialize(body) + Encode(end) + after;
            Normalize(png, z)
            == if HasCgBI(body) then Finish(Signature + Serialize(Kept(body)), IdatData(body), LastDims(body, None), z)
               else Ok(png)
  {
    var rest := Serialize(body) + Encode(end) + after;
    var png := Signature + rest;
    assert png == Signature + Serialize(body) + Encode(end) + after;
    assert png[..8] == Signature && png[8..] == rest;
    assert Normalize(png, z) == Walk(png, rest, Signature, [], false, None, z);
    WalkToEnd(png, body, end, after, Signature, [], false, None, z);
    assert [] + IdatData(body) == IdatData(body);
  }

  /** Input that does not start with the PNG signature is returned as it is. */
  lemma NotPng(png: seq<byte>, z: Codec)
    requires |png| < 8 || png[..8] != Signature
    ensures Normalize(png, z) == Ok(png)
  {
  }

  /**
   * A successful finish ends in the IDAT chunk of the compressed swapped
   * pixels and a zero-length IEND chunk with CRC crc32("IEND"), and
   * nothing after it.
   */
  lemma FinishShape(out: seq<byte>, idat: seq<byte>, dims: Option<Dims>, z: Codec)
    requires Finish(out, idat, dims, z).Ok?
    ensures dims.Some?
    ensures var raw := z.inflate(idat, dims.value.width * dims.value.height * 4 + dims.value.height);
            && raw.Some? && ImageFits(|raw.value|, 1, dims.value.width, dims.value.height)
            && var packed := z.deflate(SwapRows(raw.value, 1, dims.value.width, dims.value.height));
            && |packed| < 0x1_0000_0000
            && Finish(out, idat, dims, z).value == out + Encode(IdatChunk(packed, z)) + Encode(IendChunk(z))
    ensures var r := Finish(out, idat, dims, z).value;
            r[|r| - 12..] == Be32(0) + IEND + Be32(z.crc(IEND))
  {
    var r := Finish(out, idat, dims, z).value;
    var e := Encode(IendChunk(z));
    assert r[|r| - 12..] == e;
  }

  // ---------------------------------------------------------------------
  // The loop itself
  // ---------------------------------------------------------------------

  /** ApplePngNormalize.normalize, with its while loop over chunk_pos. */
  method NormalizePng(oldPng: seq<byte>, z: Codec) returns (r: Result<seq<byte>>)
    ensures r == Normalize(oldPng, z)
  {
    if |oldPng| < 8 || oldPng[..8] != Signature {
      return Ok(oldPng);
    }
    ghost var goal := Normalize(oldPng, z);
    var newPng := oldPng[..8];
    var chunkPos := |newPng|;
    var chunkD: seq<byte> := [];
    var foundCgbi := false;
    var dims: Option<Dims> := None;
    assert goal == Walk(oldPng, oldPng[chunkPos..], newPng, chunkD, foundCgbi, dims, z);
    TypesDistinct();
    while chunkPos < |oldPng|
      invariant 8 <= chunkPos <= |oldPng|
      invariant Walk(oldPng, oldPng[chunkPos..], newPng, chunkD, foundCgbi, dims, z) == goal
      decreases |oldPng| - chunkPos
    {
      ghost var rest := oldPng[chunkPos..];
      var chunk := ReadChunkAt(oldPng, chunkPos);
      if chunk.Err? {
        return Err(chunk.error);
      }
      var chunkType, chunkData, chunkCrc := chunk.value.ctype, chunk.value.data, chunk.value.crc;
      var chunkLength := |chunkData|;
      ghost var next := rest[chunkLength + 12..];
      assert next == oldPng[chunkPos + chunkLength + 12..];
      chunkPos := chunkPos + chunkLength + 12;
      assert next == oldPng[chunkPos..];

      ghost var dims0 := dims;
      if chunkType == IHDR {
        var header := ReadHeader(chunkData);
        if header.Err? {
          return Err(header.error);
        }
        dims := Some(header.value);
      }
      if chunkType == IDAT {
        WalkIdat(oldPng, rest, chunk.value, next, newPng, chunkD, foundCgbi, dims, z);
        chunkD := chunkD + chunkData;
        assert Walk(oldPng, next, newPng, chunkD, foundCgbi, dims, z) == goal;
        continue;
      }
      if chunkType == IEND {
        if !foundCgbi {
          WalkEnd(oldPng, rest, newPng, chunkD, foundCgbi, dims, z);
          return Ok(oldPng);
        }
        WalkEnd(oldPng, rest, newPng, chunkD, foundCgbi, dims, z);
        r := FinishPng(newPng, chunkD, dims, z);
        return;
      }
      if chunkType == CgBI {
        WalkCgbi(oldPng, rest, chunk.value, next, newPng, chunkD, foundCgbi, dims, z);
        foundCgbi := true;
        assert Walk(oldPng, next, newPng, chunkD, foundCgbi, dims, z) == goal;
      } else {
        if chunkType == IHDR {
          WalkHeader(oldPng, rest, chunk.value, next, newPng, chunkD, foundCgbi, dims0, dims.value, z);
        } else {
          WalkCopy(oldPng, rest, chunk.value, next, newPng, chunkD, foundCgbi, dims, z);
        }
        newPng := CopyChunk(newPng, chunk.value);
      }
    }
    return Ok(newPng);
  }

  /** Lines 89-92: a chunk written back as it was read. */
  method CopyChunk(newPng: seq<byte>, c: Chunk) returns (out: seq<byte>)
    requires WellFormed(c)
    ensures out == newPng + Encode(c)
  {
    var chunkLength := |c.data|;
    out := newPng + Be32(chunkLength as u32) + c.ctype;
    if chunkLength > 0 {
      out := out + c.data;
    }
    out := out + Be32(c.crc);
  }

  /** Lines 28-33: one chunk read at the cursor. */
  method ReadChunkAt(png: seq<byte>, chunkPos: nat) returns (r: Result<Chunk>)
    requires chunkPos <= |png|
    ensures r == ReadChunk(png[chunkPos..])
  {
    ghost var rest := png[chunkPos..];
    if chunkPos + 4 > |png| {
      return Err(StructError);
    }
    assert rest[..4] == png[chunkPos..chunkPos + 4];
    var chunkLength := ReadBe32(png[chunkPos..chunkPos + 4]) as int;
    if chunkPos + chunkLength + 12 > |png| {
      return Err(StructError);
    }
    var chunkType := png[chunkPos + 4..chunkPos + 8];
    var chunkData := png[chunkPos + 8..chunkPos + 8 + chunkLength];
    var chunkCrc := ReadBe32(png[chunkPos + chunkLength + 8..chunkPos + chunkLength + 12]);
    assert rest[4..8] == chunkType;
    assert rest[8..8 + chunkLength] == chunkData;
    assert rest[chunkLength + 8..chunkLength + 12] == png[chunkPos + chunkLength + 8..chunkPos + chunkLength + 12];
    return Ok(Chunk(chunkType, chunkData, chunkCrc));
  }

  /** Lines 52-83: inflate, swap in place, deflate and write IDAT and IEND. */
  method FinishPng(out: seq<byte>, idat: seq<byte>, dims: Option<Dims>, z: Codec) returns (r: Result<seq<byte>>)
    ensures r == Finish(out, idat, dims, z)
  {
    if dims.None? {
      return Err(Unbound);
    }
    var width, height := dims.value.width, dims.value.height;
    var bufSize := width * height * 4 + height;
    var inflated := z.inflate(idat, bufSize);
    if inflated.None? {
      return Err(ZlibError);
    }
    if !ImageFits(|inflated.value|, 1, width, height) {
      return Err(IndexOut);
    }
    var chunkData := new byte[|inflated.value|](i requires 0 <= i < |inflated.value| => inflated.value[i]);
    assert chunkData[..] == inflated.value;
    SwapRedBlue(chunkData, width, height);
    var packed := z.deflate(chunkData[..]);
    var chunkLength := |packed|;
    if chunkLength >= 0x1_0000_0000 {
      return Err(StructError);
    }
    var chunkCrc := z.crc(IDAT + packed);
    var crc := Normalised(chunkCrc as int);
    var newPng := out + Be32(chunkLength as u32) + IDAT + packed + Be32(crc);
    ghost var idatPart := Be32(chunkLength as u32) + IDAT + packed + Be32(crc);
    assert idatPart == Encode(IdatChunk(packed, z));
    assert newPng == out + idatPart;
    newPng := newPng + Be32(0) + IEND + Be32(z.crc(IEND));
    ghost var iendPart := Be32(0) + IEND + Be32(z.crc(IEND));
    assert iendPart == Encode(IendChunk(z));
    assert newPng == out + idatPart + iendPart;
    return Ok(newPng);
  }
}
