/**
 * The ESC/POS byte stream the print server sends to its thermal printer:
 * line feeds, "GS V" (select cut mode and cut paper, function B) and
 * "GS v 0" (print raster bit image), and the raster encoding of a 1-bit
 * image in which each byte carries eight pixels, most significant bit first.
 */
module EscPos {
  import opened Wrappers
  import opened Grid
  import opened Bytes
  import opened Raster

  const LF: Byte := 0x0A
  const GS: Byte := 0x1D
  /** 'V': GS V selects the cut mode and cuts the paper. */
  const CutCode: Byte := 0x56
  /** 'v' '0': GS v 0 prints a raster bit image. */
  const RasterCode: Byte := 0x76
  const RasterFn: Byte := 0x30
  /** Function B of GS V: feed the paper by n dots, then cut (65 full cut, 66 partial cut). */
  const FullCutFeed: Byte := 65
  const PartialCutFeed: Byte := 66

  /** The commands the print server emits. */
  datatype Command =
    | LineFeed
    | FeedAndCut(m: Byte, n: Byte)
    | RasterImage(m: Byte, widthBytes: nat, height: nat, data: seq<Byte>)

  // ---------------------------------------------------------------------
  // 16-bit little-endian fields
  // ---------------------------------------------------------------------

  /** The low byte of a field, `v & 0xff`. */
  function Lo(v: nat): Byte
  {
    (v % 256) as Byte
  }

  /** The high byte of a field, `(v >> 8) & 0xff`: bits 8 to 15 of v. */
  function Hi(v: nat): Byte
  {
    (v / 256 % 256) as Byte
  }

  /** The value a printer reads from a low and a high byte. */
  function Field(lo: Byte, hi: Byte): (v: nat)
    ensures v < 65536
  {
    lo as int + 256 * hi as int
  }

  lemma ByteOfNat(x: nat)
    requires x < 256
    ensures (x as Byte) as int == x
  {
    assert x % 256 == x;
  }

  lemma ByteRange(b: Byte)
    ensures 0 <= b as int < 256
  {
  }

  lemma NatOfByte(b: Byte)
    ensures 0 <= b as int < 256 && (b as int) as Byte == b
  {
  }

  lemma Digits(lo: nat, hi: nat)
    requires lo < 256 && hi < 256
    ensures (lo + 256 * hi) % 256 == lo && (lo + 256 * hi) / 256 % 256 == hi
  {
  }

  lemma LoHiOf(v: nat, lo: nat, hi: nat)
    requires v % 256 == lo && v / 256 % 256 == hi
    ensures Lo(v) == lo as Byte && Hi(v) == hi as Byte
  {
  }

  /** A field reads back as the value modulo 65536: larger values wrap silently. */
  lemma FieldRoundTrip(v: nat)
    ensures Field(Lo(v), Hi(v)) == v % 65536
  {
    ByteOfNat(v % 256);
    ByteOfNat(v / 256 % 256);
    LowDigits(v);
  }

  lemma LowDigits(v: nat)
    ensures v % 256 + 256 * (v / 256 % 256) == v % 65536
  {
    var q := v / 256;
    assert v == 65536 * (q / 256) + (256 * (q % 256) + v % 256);
    ModOfSplit(v, q / 256, 256 * (q % 256) + v % 256);
  }

  lemma ModOfSplit(v: int, q: int, r: int)
    requires v == 65536 * q + r && 0 <= r < 65536
    ensures v % 65536 == r
  {
  }

  /** A value below 65536 reads back unchanged. */
  lemma FieldFits(v: nat)
    requires v < 65536
    ensures Field(Lo(v), Hi(v)) == v
  {
    FieldRoundTrip(v);
    SmallMod(Field(Lo(v), Hi(v)), v);
  }

  lemma SmallMod(f: int, v: nat)
    requires v < 65536 && f == v % 65536
    ensures f == v
  {
  }

  /** The two bytes of a field are recovered from the value it reads as. */
  lemma FieldBytes(lo: Byte, hi: Byte)
    ensures Lo(Field(lo, hi)) == lo && Hi(Field(lo, hi)) == hi
  {
    FieldDigits(lo, hi);
    LoHiOf(Field(lo, hi), lo as int, hi as int);
    NatOfByte(lo);
    NatOfByte(hi);
  }

  lemma FieldDigits(lo: Byte, hi: Byte)
    ensures Field(lo, hi) % 256 == lo as int && Field(lo, hi) / 256 % 256 == hi as int
  {
    ByteRange(lo);
    ByteRange(hi);
    Digits(lo as int, hi as int);
  }

  // ---------------------------------------------------------------------
  // Encoding and decoding commands
  // ---------------------------------------------------------------------

  /** The bytes of one command. */
  function Encode(c: Command): (bytes: seq<Byte>)
    ensures |bytes| == match c
      case LineFeed => 1
      case FeedAndCut(_, _) => 4
      case RasterImage(_, _, _, data) => 8 + |data|
  {
    match c
    case LineFeed => [LF]
    case FeedAndCut(m, n) => [GS, CutCode, m, n]
    case RasterImage(m, wb, h, data) => RasterHeader(m, wb, h) + data
  }

  /** GS v 0 m xL xH yL yH: the eight bytes before the raster data. */
  function RasterHeader(m: Byte, widthBytes: nat, height: nat): (header: seq<Byte>)
    ensures |header| == 8
  {
    [GS, RasterCode, RasterFn, m, Lo(widthBytes), Hi(widthBytes), Lo(height), Hi(height)]
  }

  function EncodeAll(cs: seq<Command>): seq<Byte>
  {
    if cs == [] then [] else Encode(cs[0]) + EncodeAll(cs[1..])
  }

  /**
   * A command a printer reads back unchanged: a GS V command of function B,
   * and a raster whose dimensions fit their 16-bit fields and whose data holds
   * exactly widthBytes * height bytes.
   */
  predicate WellFormed(c: Command)
  {
    match c
    case LineFeed => true
    case FeedAndCut(m, _) => m == FullCutFeed || m == PartialCutFeed
    case RasterImage(_, wb, h, data) => wb < 65536 && h < 65536 && |data| == wb * h
  }

  /** Reads the command at the front of `bytes`, with the number of bytes it occupies. */
  function ParseOne(bytes: seq<Byte>): (r: Option<(Command, nat)>)
    ensures r.Some? ==> 0 < r.value.1 <= |bytes| && WellFormed(r.value.0)
  {
    if |bytes| >= 1 && bytes[0] == LF then
      Some((LineFeed, 1))
    else if |bytes| >= 4 && bytes[0] == GS && bytes[1] == CutCode
      && (bytes[2] == FullCutFeed || bytes[2] == PartialCutFeed) then
      Some((FeedAndCut(bytes[2], bytes[3]), 4))
    else if |bytes| >= 8 && bytes[0] == GS && bytes[1] == RasterCode && bytes[2] == RasterFn then
      ParseRaster(bytes)
    else
      None
  }

  /** Reads a GS v 0 command: the mode, the two fields and widthBytes * height bytes of data. */
  function ParseRaster(bytes: seq<Byte>): (r: Option<(Command, nat)>)
    requires |bytes| >= 8
    ensures r.Some? ==> 0 < r.value.1 <= |bytes| && WellFormed(r.value.0)
  {
    var wb := Field(bytes[4], bytes[5]);
    var h := Field(bytes[6], bytes[7]);
    var size := wb * h;
    MulMonotone(0, wb, h);
    if 8 + size <= |bytes| then
      Some((RasterImage(bytes[3], wb, h, bytes[8..8 + size]), 8 + size))
    else
      None
  }

  /** Reads a whole byte stream as a sequence of commands, if it is one. */
  function Parse(bytes: seq<Byte>): Option<seq<Command>>
    decreases |bytes|
  {
    if bytes == [] then Some([])
    else
      match ParseOne(bytes)
      case None => None
      case Some((c, k)) =>
        match Parse(bytes[k..])
        case None => None
        case Some(cs) => Some([c] + cs)
  }

  lemma ParseRasterEncode(m: Byte, wb: nat, h: nat, data: seq<Byte>, rest: seq<Byte>)
    requires wb < 65536 && h < 65536 && |data| == wb * h
    ensures ParseOne(Encode(RasterImage(m, wb, h, data)) + rest)
      == Some((RasterImage(m, wb, h, data), 8 + wb * h))
  {
    var header := RasterHeader(m, wb, h);
    var bytes := header + (data + rest);
    assert Encode(RasterImage(m, wb, h, data)) + rest == bytes;
    assert bytes[4] == Lo(wb) && bytes[5] == Hi(wb) && bytes[6] == Lo(h) && bytes[7] == Hi(h);
    FieldFits(wb);
    FieldFits(h);
    assert bytes[8..8 + |data|] == data;
    ParseRasterFields(bytes, wb, h);
  }

  lemma ParseRasterFields(bytes: seq<Byte>, wb: nat, h: nat)
    requires |bytes| >= 8 && Field(bytes[4], bytes[5]) == wb && Field(bytes[6], bytes[7]) == h
    requires bytes[0] == GS && bytes[1] == RasterCode && bytes[2] == RasterFn
    requires 8 + wb * h <= |bytes|
    ensures ParseOne(bytes) == Some((RasterImage(bytes[3], wb, h, bytes[8..8 + wb * h]), 8 + wb * h))
  {
  }

  lemma ParseOneEncode(c: Command, rest: seq<Byte>)
    requires WellFormed(c)
    ensures ParseOne(Encode(c) + rest) == Some((c, |Encode(c)|))
  {
    if c.RasterImage? {
      ParseRasterEncode(c.m, c.widthBytes, c.height, c.data, rest);
    }
  }

  /** Every sequence of well-formed commands is read back from its bytes. */
  lemma {:induction false} ParseEncodeAll(cs: seq<Command>)
    requires forall i :: 0 <= i < |cs| ==> WellFormed(cs[i])
    ensures Parse(EncodeAll(cs)) == Some(cs)
  {
    if cs != [] {
      var bytes := EncodeAll(cs);
      ParseOneEncode(cs[0], EncodeAll(cs[1..]));
      assert bytes[|Encode(cs[0])|..] == EncodeAll(cs[1..]);
      ParseEncodeAll(cs[1..]);
      assert [cs[0]] + cs[1..] == cs;
    }
  }

  lemma EncodeParseOne(bytes: seq<Byte>)
    requires ParseOne(bytes).Some?
    ensures Encode(ParseOne(bytes).value.0) == bytes[..ParseOne(bytes).value.1]
  {
    if bytes[0] == GS && bytes[1] == RasterCode {
      FieldBytes(bytes[4], bytes[5]);
      FieldBytes(bytes[6], bytes[7]);
    }
  }

  /** Whatever the parser reads is exactly what encoding its result writes. */
  lemma {:induction false} EncodeParse(bytes: seq<Byte>)
    requires Parse(bytes).Some?
    ensures EncodeAll(Parse(bytes).value) == bytes
    decreases |bytes|
  {
    if bytes != [] {
      var (c, k) := ParseOne(bytes).value;
      EncodeParseOne(bytes);
      EncodeParse(bytes[k..]);
      assert Parse(bytes).value == [c] + Parse(bytes[k..]).value;
      EncodeParseStep(bytes, c, k, Parse(bytes[k..]).value);
    }
  }

  lemma EncodeParseStep(bytes: seq<Byte>, c: Command, k: nat, tail: seq<Command>)
    requires k <= |bytes| && Encode(c) == bytes[..k] && EncodeAll(tail) == bytes[k..]
    ensures EncodeAll([c] + tail) == bytes
  {
    EncodeAllCons(c, tail);
    assert bytes == bytes[..k] + bytes[k..];
  }

  lemma EncodeAllCons(c: Command, cs: seq<Command>)
    ensures EncodeAll([c] + cs) == Encode(c) + EncodeAll(cs)
  {
    assert ([c] + cs)[1..] == cs;
  }

  // ---------------------------------------------------------------------
  // The raster command of an image
  // ---------------------------------------------------------------------

  /**
   * The GS v 0 command for an image: mode 0, the 16-bit width in bytes and
   * height, then the raster data.
   */
  function RasterCommand(pixels: seq<int>, width: nat, height: nat): Command
  {
    RasterImage(0, WidthBytes(width), height, RasterBody(pixels, width, height))
  }

  /** The header and data `createEscPosRaster` returns. */
  function EscPosRaster(pixels: seq<int>, width: nat, height: nat): (bytes: seq<Byte>)
    ensures |bytes| == 8 + WidthBytes(width) * height
  {
    Encode(RasterCommand(pixels, width, height))
  }

  /**
   * The raster command starts with GS v 0 and mode 0, then ceil(width / 8)
   * and the height as 16-bit little-endian fields, each masked to its low
   * 16 bits (a dimension of 65536 or more wraps silently).
   */
  lemma EscPosRasterHeader(pixels: seq<int>, width: nat, height: nat)
    ensures EscPosRaster(pixels, width, height)[..4] == [GS, RasterCode, RasterFn, 0]
    ensures Field(EscPosRaster(pixels, width, height)[4], EscPosRaster(pixels, width, height)[5])
      == WidthBytes(width) % 65536
    ensures Field(EscPosRaster(pixels, width, height)[6], EscPosRaster(pixels, width, height)[7])
      == height % 65536
  {
    var bytes := EscPosRaster(pixels, width, height);
    assert bytes[4] == Lo(WidthBytes(width)) && bytes[5] == Hi(WidthBytes(width));
    assert bytes[6] == Lo(height) && bytes[7] == Hi(height);
    FieldRoundTrip(WidthBytes(width));
    FieldRoundTrip(height);
  }

  /** When the dimensions fit their fields, a printer reads back exactly the image's raster command. */
  lemma EscPosRasterParses(pixels: seq<int>, width: nat, height: nat)
    requires WidthBytes(width) < 65536 && height < 65536
    ensures Parse(EscPosRaster(pixels, width, height)) == Some([RasterCommand(pixels, width, height)])
  {
    var c := RasterCommand(pixels, width, height);
    assert [c][1..] == [];
    assert EncodeAll([c]) == Encode(c) + [];
    assert Encode(c) + [] == Encode(c) == EscPosRaster(pixels, width, height);
    ParseEncodeAll([c]);
  }
}
