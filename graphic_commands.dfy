/** The three graphic commands of ZPL II: `~DG` (download a graphic into
    printer storage), `^FO..^XG..^FS` (recall a stored graphic at a field
    origin) and `^ID` (delete a stored object). The store command is built
    by `GraphicStore`; the functions before it say what it produces. */
module GraphicCommands {
  import opened Bits
  import opened Formatting
  import opened Raster

  /** The source bit for column `x` of row `y`: columns at or past the
      width are padding and never print. */
  predicate SourceBit(img: Bitmap, x: nat, y: nat) {
    if x >= img.width then false else Dark(img, x, y)
  }

  /** The eight bits of byte `bx` of row `y`, least-significant first.
      Bit `k` comes from column `bx * 8 + 7 - k`, so the first pixel of the
      group lands in the most significant bit. */
  function GroupBits(img: Bitmap, y: nat, bx: nat): (bits: seq<bool>)
    ensures |bits| == 8
  {
    seq(8, k requires 0 <= k < 8 => SourceBit(img, bx * 8 + 7 - k, y))
  }

  lemma GroupBitsAt(img: Bitmap, y: nat, bx: nat, i: nat)
    requires i < 8
    ensures GroupBits(img, y, bx)[i] == SourceBit(img, bx * 8 + 7 - i, y)
  {
  }

  function PackedByte(img: Bitmap, y: nat, bx: nat): Byte {
    var w := Weight(GroupBits(img, y, bx));
    assert w < Pow2(8) == 256;
    w
  }

  /** The first `n` bytes of row `y`. */
  function RowPrefix(img: Bitmap, y: nat, n: nat): (row: seq<Byte>)
    ensures |row| == n
  {
    if n == 0 then [] else RowPrefix(img, y, n - 1) + [PackedByte(img, y, n - 1)]
  }

  /** Row `y` packed: `ByteWidth(width)` bytes. */
  function RowBytes(img: Bitmap, y: nat): (row: seq<Byte>)
    ensures |row| == ByteWidth(img.width)
  {
    RowPrefix(img, y, ByteWidth(img.width))
  }

  /** The first `n` rows of the packed image. */
  function RowsPrefix(img: Bitmap, n: nat): (rows: seq<seq<Byte>>)
    ensures |rows| == n
  {
    if n == 0 then [] else RowsPrefix(img, n - 1) + [RowBytes(img, n - 1)]
  }

  /** The packed image: `height` rows of `ByteWidth(width)` bytes each. */
  function PackedRows(img: Bitmap): (rows: seq<seq<Byte>>)
    ensures |rows| == img.height
  {
    RowsPrefix(img, img.height)
  }

  /** The bytes as upper-case hex pairs, in order. */
  function HexBytes(bytes: seq<Byte>): (s: string)
    ensures |s| == 2 * |bytes|
    ensures forall i :: 0 <= i < |s| ==> IsUpperHexDigit(s[i])
  {
    if bytes == [] then [] else HexBytes(bytes[..|bytes| - 1]) + HexPair(bytes[|bytes| - 1])
  }

  /** Each row as its hex pairs followed by a newline. */
  function HexBody(rows: seq<seq<Byte>>): string {
    if rows == [] then [] else HexBody(rows[..|rows| - 1]) + HexBytes(rows[|rows| - 1]) + "\n"
  }

  /** `~DG<drive>:<name>,<total bytes>,<bytes per row>,` — the name carries
      no `.GRF` extension here. */
  function StoreHeader(drive: char, name: string, totalBytes: nat, byteWidth: nat): string {
    "~DG" + [drive] + ":" + name + "," + NatToString(totalBytes) + "," + NatToString(byteWidth) + ","
  }

  /** The complete `~DG` command for an image. */
  function StoreCommand(img: Bitmap, drive: char, name: string): (c: string)
    ensures |c| >= 5 + |name| && c[..5] == "~DG" + [drive] + ":"
  {
    var byteWidth := ByteWidth(img.width);
    var header := StoreHeader(drive, name, img.height * byteWidth, byteWidth);
    var body := HexBody(PackedRows(img));
    assert (header + body)[..5] == header[..5];
    header + body
  }

  /** What `GraphicStore` has produced after the first `y` rows and the
      first `x` bytes of row `y`. */
  function StorePrefix(img: Bitmap, drive: char, name: string, y: nat, x: nat): string {
    var byteWidth := ByteWidth(img.width);
    StoreHeader(drive, name, img.height * byteWidth, byteWidth) + HexBody(RowsPrefix(img, y)) + HexBytes(RowPrefix(img, y, x))
  }

  lemma StorePrefixNextByte(img: Bitmap, drive: char, name: string, y: nat, x: nat)
    ensures StorePrefix(img, drive, name, y, x + 1) == StorePrefix(img, drive, name, y, x) + HexPair(PackedByte(img, y, x))
  {
  }

  lemma StorePrefixNextRow(img: Bitmap, drive: char, name: string, y: nat)
    ensures StorePrefix(img, drive, name, y + 1, 0) == StorePrefix(img, drive, name, y, ByteWidth(img.width)) + "\n"
  {
  }

  /** One group of eight pixels of row `y`, starting at column `x * 8`,
      scanned into a fresh bit array: index 7 takes the first pixel. */
  method ScanGroup(image: Bitmap, y: nat, x: nat) returns (ba: array<bool>)
    ensures fresh(ba) && ba.Length == 8
    ensures ba[..] == GroupBits(image, y, x)
  {
    ba := new bool[8];
    ghost var group := GroupBits(image, y, x);
    var scanX := x * 8;
    var k := 7;
    while k >= 0
      invariant -1 <= k <= 7
      invariant scanX == x * 8 + 7 - k
      invariant forall i :: k < i < 8 ==> ba[i] == group[i]
    {
      GroupBitsAt(image, y, x, k);
      if scanX >= image.width {
        ba[k] := false;
      } else {
        ba[k] := image.red(scanX, y) < 128;
      }
      scanX := scanX + 1;
      k := k - 1;
    }
    assert ba[..] == group;
  }

  /** Builds the `~DG` command for `image`: the header, then row by row
      each group of eight pixels as one hex pair, each row ending in a
      newline. A pixel is on when its red value is below 128. */
  method GraphicStore(image: Bitmap, storageArea: char, imageName: string) returns (res: string)
    ensures res == StoreCommand(image, storageArea, imageName)
  {
    res := [];
    var byteWidth := ByteWidth(image.width);
    res := res + StoreHeader(storageArea, imageName, image.height * byteWidth, byteWidth);

    var y := 0;
    while y < image.height
      invariant 0 <= y <= image.height
      invariant res == StorePrefix(image, storageArea, imageName, y, 0)
    {
      var x := 0;
      while x < byteWidth
        invariant 0 <= x <= byteWidth
        invariant res == StorePrefix(image, storageArea, imageName, y, x)
      {
        var ba := ScanGroup(image, y, x);
        var b := ConvertToByte(ba);
        StorePrefixNextByte(image, storageArea, imageName, y, x);
        res := res + HexPair(b);
        x := x + 1;
      }
      StorePrefixNextRow(image, storageArea, imageName, y);
      res := res + "\n";
      y := y + 1;
    }
  }

  lemma {:induction false} RowPrefixAt(img: Bitmap, y: nat, n: nat, i: nat)
    requires i < n
    ensures RowPrefix(img, y, n)[i] == PackedByte(img, y, i)
  {
    if i < n - 1 {
      RowPrefixAt(img, y, n - 1, i);
    }
  }

  lemma {:induction false} RowsPrefixAt(img: Bitmap, n: nat, i: nat)
    requires i < n
    ensures RowsPrefix(img, n)[i] == RowBytes(img, i)
  {
    if i < n - 1 {
      RowsPrefixAt(img, n - 1, i);
    }
  }

  /** Bit `7 - j` of byte `bx` of row `y` (the bit worth `2^(7 - j)`) is set
      exactly when pixel `bx * 8 + j` lies inside the image and is dark: the
      first pixel of each group is the most significant bit. */
  lemma PackedByteBit(img: Bitmap, y: nat, bx: nat, j: nat)
    requires j < 8
    ensures ToBits(PackedByte(img, y, bx), 8)[7 - j] <==> bx * 8 + j < img.width && Dark(img, bx * 8 + j, y)
  {
    ToBitsWeight(GroupBits(img, y, bx));
    GroupBitsAt(img, y, bx, 7 - j);
  }

  /** The last byte of a row ends in `8 * ByteWidth(width) - width` clear
      padding bits: bit `i` below that count is never set, whatever the
      image holds. */
  lemma PaddingBitClear(img: Bitmap, y: nat, i: nat)
    requires i < 8 * ByteWidth(img.width) - img.width
    ensures !ToBits(PackedByte(img, y, ByteWidth(img.width) - 1), 8)[i]
  {
    var bx := ByteWidth(img.width) - 1;
    ToBitsWeight(GroupBits(img, y, bx));
    GroupBitsAt(img, y, bx, i);
  }

  /** The `height` rows all have `ByteWidth(width)` bytes. */
  lemma PackedRowsWidth(img: Bitmap)
    ensures forall i :: 0 <= i < img.height ==> |PackedRows(img)[i]| == ByteWidth(img.width)
  {
    forall i | 0 <= i < img.height
      ensures |PackedRows(img)[i]| == ByteWidth(img.width)
    {
      RowsPrefixAt(img, img.height, i);
    }
  }

  /** Each row is `2 * byteWidth` hex digits and a newline. */
  lemma {:induction false} HexBodyLength(rows: seq<seq<Byte>>, byteWidth: nat)
    requires forall i :: 0 <= i < |rows| ==> |rows[i]| == byteWidth
    ensures |HexBody(rows)| == |rows| * (2 * byteWidth + 1)
  {
    if rows != [] {
      var n, line := |rows|, 2 * byteWidth + 1;
      var init, last := rows[..n - 1], rows[n - 1];
      assert forall i :: 0 <= i < |init| ==> init[i] == rows[i];
      HexBodyLength(init, byteWidth);
      assert HexBody(rows) == HexBody(init) + HexBytes(last) + "\n";
      assert |HexBytes(last)| == 2 * byteWidth;
      MulStep(n, line);
    }
  }

  lemma MulStep(n: nat, c: nat)
    requires n >= 1
    ensures (n - 1) * c + c == n * c
  {
  }

  /** After the header, the store command has exactly
      `height * (2 * ByteWidth(width) + 1)` characters. */
  lemma StoreCommandLength(img: Bitmap, drive: char, name: string)
    ensures var byteWidth := ByteWidth(img.width);
      |StoreCommand(img, drive, name)|
        == |StoreHeader(drive, name, img.height * byteWidth, byteWidth)| + img.height * (2 * byteWidth + 1)
  {
    PackedRowsWidth(img);
    HexBodyLength(PackedRows(img), ByteWidth(img.width));
  }

  /** Eight pixels alternating dark and light, dark first. */
  const Alternating := Bitmap(8, 1, (x: nat, y: nat) => if x % 2 == 0 then 0 else 255)

  /** A row nine dark pixels wide. */
  const NineDark := Bitmap(9, 1, (x: nat, y: nat) => 0)

  /** Byte `bx` of row `y` is `v` when `v`'s bits are the group's bits. */
  lemma PackedByteIs(img: Bitmap, y: nat, bx: nat, v: Byte)
    requires forall k :: 0 <= k < 8 ==> ToBits(v, 8)[k] == SourceBit(img, bx * 8 + 7 - k, y)
    ensures PackedByte(img, y, bx) == v
  {
    assert Pow2(8) == 256;
    WeightToBits(v, 8);
    forall k | 0 <= k < 8
      ensures ToBits(v, 8)[k] == GroupBits(img, y, bx)[k]
    {
      GroupBitsAt(img, y, bx, k);
    }
    assert ToBits(v, 8) == GroupBits(img, y, bx);
  }

  /** Dark first, the alternating pixels pack into 0xAA: the first pixel
      is the most significant bit. */
  lemma AlternatingPacked()
    ensures PackedRows(Alternating) == [[0xAA]]
  {
    assert ToBits(0xAA, 8) == [false, true, false, true, false, true, false, true];
    PackedByteIs(Alternating, 0, 0, 0xAA);
    assert RowBytes(Alternating, 0) == [0xAA];
  }

  lemma HexBodySingle(row: seq<Byte>)
    ensures HexBody([row]) == HexBytes(row) + "\n"
  {
  }

  lemma AlternatingBody()
    ensures HexBody(PackedRows(Alternating)) == "AA\n"
  {
    AlternatingPacked();
    HexPairExamples();
    assert HexBytes([0xAA]) == "AA";
    HexBodySingle([0xAA]);
  }

  lemma NineDarkFirstByte()
    ensures PackedByte(NineDark, 0, 0) == 0xFF
  {
    assert ToBits(0xFF, 8) == [true, true, true, true, true, true, true, true];
    PackedByteIs(NineDark, 0, 0, 0xFF);
  }

  lemma NineDarkSecondByte()
    ensures PackedByte(NineDark, 0, 1) == 0x80
  {
    assert ToBits(0x80, 8) == [false, false, false, false, false, false, false, true];
    PackedByteIs(NineDark, 0, 1, 0x80);
  }

  /** Nine dark pixels need two bytes: 0xFF, then 0x80 holding the ninth
      pixel in its top bit above seven clear padding bits. */
  lemma NineDarkPacked()
    ensures PackedRows(NineDark) == [[0xFF, 0x80]]
  {
    NineDarkFirstByte();
    NineDarkSecondByte();
    assert ByteWidth(NineDark.width) == 2;
    assert RowPrefix(NineDark, 0, 1) == [0xFF];
    assert RowBytes(NineDark, 0) == [0xFF, 0x80];
  }

  lemma NineDarkBody()
    ensures HexBody(PackedRows(NineDark)) == "FF80\n"
  {
    NineDarkPacked();
    HexPairExamples();
    assert HexBytes([0xFF]) == "FF";
    assert HexBytes([0xFF, 0x80]) == "FF80";
    HexBodySingle([0xFF, 0x80]);
  }

  /** `^FO<left>,<top>^XG<drive>:<name>.GRF^FS`: place a stored graphic with
      its top-left corner at (`left`, `top`). The coordinates are written
      as given, negative ones included. */
  function GraphicWrite(left: int, top: int, imageName: string, storageArea: char): (c: string)
    ensures |c| == |IntToString(left)| + |IntToString(top)| + |imageName| + 16
    ensures c[..3] == "^FO"
  {
    "^FO" + IntToString(left) + "," + IntToString(top) + "^XG" + [storageArea] + ":" + imageName + ".GRF^FS"
  }

  lemma CoordinateExamples()
    ensures IntToString(10) == "10" && IntToString(20) == "20"
  {
    assert NatToString(1) == "1" && NatToString(2) == "2" && NatToString(0) == "0";
  }

  /** Placing the first text image at (10, 20) on drive `R`. */
  lemma GraphicWriteExample()
    ensures GraphicWrite(10, 20, "SZT00001", 'R') == "^FO10,20^XGR:SZT00001.GRF^FS"
  {
    var origin := "^FO" + IntToString(10) + "," + IntToString(20);
    var recall := "^XG" + ['R'] + ":" + "SZT00001" + ".GRF^FS";
    assert GraphicWrite(10, 20, "SZT00001", 'R') == origin + recall;
    OriginExample();
    RecallExample();
    assert "^FO10,20" + "^XGR:SZT00001.GRF^FS" == "^FO10,20^XGR:SZT00001.GRF^FS";
  }

  lemma OriginExample()
    ensures "^FO" + IntToString(10) + "," + IntToString(20) == "^FO10,20"
  {
    CoordinateExamples();
  }

  lemma RecallExample()
    ensures "^XG" + ['R'] + ":" + "SZT00001" + ".GRF^FS" == "^XGR:SZT00001.GRF^FS"
  {
  }

  /** `^ID<drive>:<name>.GRF^FS`: delete a stored graphic. */
  function GraphicDelete(storageArea: char, imageName: string): (c: string)
    ensures |c| == |imageName| + 12
    ensures c[..3] == "^ID" && c[3] == storageArea && c[4] == ':'
    ensures c[5..5 + |imageName|] == imageName && c[|c| - 7..] == ".GRF^FS"
  {
    "^ID" + [storageArea] + ":" + imageName + ".GRF^FS"
  }
}
