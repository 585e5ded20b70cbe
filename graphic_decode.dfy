/** Reference readers for the three graphic commands, written as the exact
    inverses of the encoders rather than as a printer's lenient parser, and
    the round trips that show each command carries exactly what it was built
    from: the store command carries the image's on/off grid, the placement
    command its coordinates, drive and name. */
module GraphicDecode {
  import opened Wrappers
  import opened Bits
  import opened Formatting
  import opened Raster
  import opened GraphicCommands

  /** The position of the first `c` in `s`, if any. */
  function Find(s: string, c: char): (r: Option<nat>)
    ensures r.Some? ==> r.value < |s| && s[r.value] == c && c !in s[..r.value]
    ensures r.None? ==> c !in s
  {
    if s == [] then None
    else if s[0] == c then Some(0)
    else match Find(s[1..], c)
      case Some(i) => Some(i + 1)
      case None => None
  }

  /** `s` cut at its first `c`: the text before it and the text after it. */
  function Split(s: string, c: char): (r: Option<(string, string)>)
    ensures r.Some? ==> s == r.value.0 + [c] + r.value.1 && c !in r.value.0
    ensures r.None? ==> c !in s
  {
    match Find(s, c)
    case Some(i) => Some((s[..i], s[i + 1..]))
    case None => None
  }

  lemma {:induction false} FindAfter(a: string, c: char, b: string)
    requires c !in a
    ensures Find(a + [c] + b, c) == Some(|a|)
  {
    if a != [] {
      assert (a + [c] + b)[1..] == a[1..] + [c] + b;
      FindAfter(a[1..], c, b);
    }
  }

  /** Cutting at the separator recovers both sides, provided the left side
      does not itself contain the separator. */
  lemma SplitJoin(a: string, c: char, b: string)
    requires c !in a
    ensures Split(a + [c] + b, c) == Some((a, b))
  {
    FindAfter(a, c, b);
    var s := a + [c] + b;
    assert s[..|a|] == a;
    assert s[|a| + 1..] == b;
  }

  /** Reads consecutive upper-case hex pairs back into bytes. */
  function DecodeHexBytes(s: string): (r: Option<seq<Byte>>)
    ensures r.Some? ==> |s| == 2 * |r.value|
  {
    if s == [] then Some([])
    else if |s| < 2 then None
    else match (DecodeHexBytes(s[..|s| - 2]), DecodeHexPair(s[|s| - 2..]))
      case (Some(init), Some(b)) => Some(init + [b])
      case _ => None
  }

  /** Decoding reads the last hex pair last. */
  lemma DecodeHexBytesSnoc(prefix: string, pair: string)
    requires |pair| == 2
    ensures DecodeHexBytes(prefix + pair) == match (DecodeHexBytes(prefix), DecodeHexPair(pair))
      case (Some(init), Some(b)) => Some(init + [b])
      case _ => None
  {
  }

  lemma {:induction false} HexBytesRoundTrip(bytes: seq<Byte>)
    ensures DecodeHexBytes(HexBytes(bytes)) == Some(bytes)
  {
    if bytes != [] {
      var init, b := bytes[..|bytes| - 1], bytes[|bytes| - 1];
      assert bytes == init + [b];
      HexBytesRoundTrip(init);
      DecodeHexBytesSnoc(HexBytes(init), HexPair(b));
    }
  }

  /** Reads the body of a store command: lines of exactly `byteWidth` hex
      pairs, each ending in a newline. */
  function DecodeBody(s: string, byteWidth: nat): (r: Option<seq<seq<Byte>>>)
    ensures r.Some? ==> forall i :: 0 <= i < |r.value| ==> |r.value[i]| == byteWidth
    decreases |s|
  {
    if s == [] then Some([])
    else if |s| < 2 * byteWidth + 1 || s[|s| - 1] != '\n' then None
    else
      var n := |s| - (2 * byteWidth + 1);
      match (DecodeBody(s[..n], byteWidth), DecodeHexBytes(s[n..|s| - 1]))
      case (Some(rows), Some(row)) => Some(rows + [row])
      case _ => None
  }

  /** Decoding reads the last line last. */
  lemma DecodeBodySnoc(prefix: string, line: string, byteWidth: nat)
    requires |line| == 2 * byteWidth
    ensures DecodeBody(prefix + line + "\n", byteWidth) == match (DecodeBody(prefix, byteWidth), DecodeHexBytes(line))
      case (Some(rows), Some(row)) => Some(rows + [row])
      case _ => None
  {
    var s := prefix + line + "\n";
    var n := |s| - (2 * byteWidth + 1);
    assert s[..n] == prefix;
    assert s[n..|s| - 1] == line;
  }

  lemma {:induction false} HexBodyRoundTrip(rows: seq<seq<Byte>>, byteWidth: nat)
    requires forall i :: 0 <= i < |rows| ==> |rows[i]| == byteWidth
    ensures DecodeBody(HexBody(rows), byteWidth) == Some(rows)
  {
    if rows != [] {
      var init, row := rows[..|rows| - 1], rows[|rows| - 1];
      assert rows == init + [row];
      HexBodyRoundTrip(init, byteWidth);
      HexBytesRoundTrip(row);
      DecodeBodySnoc(HexBody(init), HexBytes(row), byteWidth);
    }
  }

  /** What a store command declares and carries. */
  datatype StoredGraphic = StoredGraphic(drive: char, name: string, totalBytes: nat, byteWidth: nat, rows: seq<seq<Byte>>)

  /** Takes `~DG<drive>:<name>,<total>,<bytes per row>,<body>` apart. */
  function ParseStore(s: string): Option<StoredGraphic> {
    if |s| < 5 || s[..3] != "~DG" || s[4] != ':' then None
    else
      var name := Split(s[5..], ',');
      if name.None? then None
      else
        var total := Split(name.value.1, ',');
        if total.None? then None
        else
          var width := Split(total.value.1, ',');
          if width.None? then None
          else
            var totalBytes, byteWidth := ParseNat(total.value.0), ParseNat(width.value.0);
            if totalBytes.None? || byteWidth.None? then None
            else
              var rows := DecodeBody(width.value.1, byteWidth.value);
              if rows.None? then None
              else Some(StoredGraphic(s[3], name.value.0, totalBytes.value, byteWidth.value, rows.value))
  }

  /** A string laid out as a store command parses into its fields. */
  lemma ParseStoreFields(s: string, name: string, totalText: string, widthText: string, body: string)
    requires |s| >= 5 && s[..3] == "~DG" && s[4] == ':'
    requires s[5..] == name + [','] + (totalText + [','] + (widthText + [','] + body))
    requires ',' !in name && ',' !in totalText && ',' !in widthText
    ensures ParseStore(s) == (
      var totalBytes, byteWidth := ParseNat(totalText), ParseNat(widthText);
      if totalBytes.None? || byteWidth.None? then None
      else
        var rows := DecodeBody(body, byteWidth.value);
        if rows.None? then None
        else Some(StoredGraphic(s[3], name, totalBytes.value, byteWidth.value, rows.value)))
  {
    SplitJoin(name, ',', totalText + [','] + (widthText + [','] + body));
    SplitJoin(totalText, ',', widthText + [','] + body);
    SplitJoin(widthText, ',', body);
  }

  /** The layout of a store command, field by field. */
  lemma StoreCommandLayout(img: Bitmap, drive: char, name: string)
    ensures var s, byteWidth := StoreCommand(img, drive, name), ByteWidth(img.width);
      |s| >= 5 && s[..3] == "~DG" && s[3] == drive && s[4] == ':'
      && s[5..] == name + [','] + (NatToString(img.height * byteWidth) + [',']
                   + (NatToString(byteWidth) + [','] + HexBody(PackedRows(img))))
  {
    var s, byteWidth := StoreCommand(img, drive, name), ByteWidth(img.width);
    var tail := name + [','] + (NatToString(img.height * byteWidth) + [',']
                 + (NatToString(byteWidth) + [','] + HexBody(PackedRows(img))));
    assert s == "~DG" + [drive] + ":" + tail;
  }

  /** Reading a store command back gives its drive and name, a total that
      is the row count times the bytes per row, and the packed rows. The
      name must not contain a comma, since the comma ends it. */
  lemma StoreRoundTrip(img: Bitmap, drive: char, name: string)
    requires ',' !in name
    ensures ParseStore(StoreCommand(img, drive, name))
         == Some(StoredGraphic(drive, name, img.height * ByteWidth(img.width), ByteWidth(img.width), PackedRows(img)))
  {
    var byteWidth := ByteWidth(img.width);
    var total := img.height * byteWidth;
    StoreCommandLayout(img, drive, name);
    ParseStoreFields(StoreCommand(img, drive, name), name, NatToString(total), NatToString(byteWidth), HexBody(PackedRows(img)));
    ParseNatRoundTrip(total);
    ParseNatRoundTrip(byteWidth);
    PackedRowsWidth(img);
    HexBodyRoundTrip(PackedRows(img), byteWidth);
  }

  /** Bit `7 - x % 8` of byte `x / 8` of a row: the pixel at column `x`. */
  function Unpack(rows: seq<seq<Byte>>, width: nat): (g: seq<seq<bool>>)
    ensures |g| == |rows|
    ensures forall y :: 0 <= y < |g| ==> |g[y]| == width
  {
    seq(|rows|, y requires 0 <= y < |rows| =>
      seq(width, x requires 0 <= x => x / 8 < |rows[y]| && ToBits(rows[y][x / 8], 8)[7 - x % 8]))
  }

  /** Unpacking recovers each pixel of the image. */
  lemma UnpackPixel(img: Bitmap, y: nat, x: nat)
    requires y < img.height && x < img.width
    ensures Unpack(PackedRows(img), img.width)[y][x] == Dark(img, x, y)
  {
    var bx, j := x / 8, x % 8;
    RowsPrefixAt(img, img.height, y);
    RowPrefixAt(img, y, ByteWidth(img.width), bx);
    PackedByteBit(img, y, bx, j);
  }

  /** The packed rows hold exactly the image's on/off grid: nothing is lost,
      shifted or invented by the packing. */
  lemma UnpackPackedRows(img: Bitmap)
    ensures Unpack(PackedRows(img), img.width) == OnGrid(img)
  {
    var g, grid := Unpack(PackedRows(img), img.width), OnGrid(img);
    forall y | 0 <= y < img.height
      ensures g[y] == grid[y]
    {
      forall x | 0 <= x < img.width
        ensures g[y][x] == grid[y][x]
      {
        UnpackPixel(img, y, x);
      }
    }
  }

  /** A store command, read back and unpacked, yields the image's grid. */
  lemma StoreCommandKeepsImage(img: Bitmap, drive: char, name: string)
    requires ',' !in name
    ensures var p := ParseStore(StoreCommand(img, drive, name));
      p.Some? && p.value.drive == drive && p.value.name == name
      && p.value.totalBytes == |p.value.rows| * p.value.byteWidth
      && Unpack(p.value.rows, img.width) == OnGrid(img)
  {
    StoreRoundTrip(img, drive, name);
    UnpackPackedRows(img);
  }

  /** Where a placement command puts which stored graphic. */
  datatype Placement = Placement(left: int, top: int, drive: char, name: string)

  const GrfSuffix: string := ".GRF^FS"

  /** Takes `^FO<left>,<top>^XG<drive>:<name>.GRF^FS` apart. */
  function ParsePlacement(s: string): Option<Placement> {
    if |s| < 3 || s[..3] != "^FO" then None
    else match Split(s[3..], ',')
      case None => None
      case Some((leftText, afterLeft)) =>
        match Split(afterLeft, '^')
        case None => None
        case Some((topText, rest)) =>
          if |rest| < 4 + |GrfSuffix| || rest[..2] != "XG" || rest[3] != ':'
             || rest[|rest| - |GrfSuffix|..] != GrfSuffix then None
          else match (ParseInt(leftText), ParseInt(topText))
            case (Some(left), Some(top)) => Some(Placement(left, top, rest[2], rest[4..|rest| - |GrfSuffix|]))
            case _ => None
  }

  /** A string laid out as a placement command parses into its fields. */
  lemma ParsePlacementFields(s: string, leftText: string, topText: string, rest: string)
    requires |s| >= 3 && s[..3] == "^FO"
    requires s[3..] == leftText + [','] + (topText + ['^'] + rest)
    requires ',' !in leftText && '^' !in topText
    ensures ParsePlacement(s) == (
      if |rest| < 4 + |GrfSuffix| || rest[..2] != "XG" || rest[3] != ':'
         || rest[|rest| - |GrfSuffix|..] != GrfSuffix then None
      else match (ParseInt(leftText), ParseInt(topText))
        case (Some(left), Some(top)) => Some(Placement(left, top, rest[2], rest[4..|rest| - |GrfSuffix|]))
        case _ => None)
  {
    SplitJoin(leftText, ',', topText + ['^'] + rest);
    SplitJoin(topText, '^', rest);
  }

  /** The layout of a placement command, field by field. */
  lemma GraphicWriteLayout(left: int, top: int, name: string, drive: char)
    ensures var s, rest := GraphicWrite(left, top, name, drive), "XG" + [drive] + ":" + name + GrfSuffix;
      |s| >= 3 && s[..3] == "^FO"
      && s[3..] == IntToString(left) + [','] + (IntToString(top) + ['^'] + rest)
  {
    var rest := "XG" + [drive] + ":" + name + GrfSuffix;
    var tail := IntToString(left) + [','] + (IntToString(top) + ['^'] + rest);
    assert GraphicWrite(left, top, name, drive) == "^FO" + tail;
  }

  lemma SuffixFields(drive: char, name: string)
    ensures var rest := "XG" + [drive] + ":" + name + GrfSuffix;
      |rest| >= 4 + |GrfSuffix| && rest[..2] == "XG" && rest[2] == drive && rest[3] == ':'
      && rest[|rest| - |GrfSuffix|..] == GrfSuffix && rest[4..|rest| - |GrfSuffix|] == name
  {
  }

  /** Reading a placement command back gives its coordinates (negative ones
      included), drive and name, whatever the name holds. */
  lemma GraphicWriteRoundTrip(left: int, top: int, name: string, drive: char)
    ensures ParsePlacement(GraphicWrite(left, top, name, drive)) == Some(Placement(left, top, drive, name))
  {
    var rest := "XG" + [drive] + ":" + name + GrfSuffix;
    GraphicWriteLayout(left, top, name, drive);
    SuffixFields(drive, name);
    ParsePlacementFields(GraphicWrite(left, top, name, drive), IntToString(left), IntToString(top), rest);
    ParseIntRoundTrip(left);
    ParseIntRoundTrip(top);
  }

  /** Takes `^ID<drive>:<name>.GRF^FS` apart into drive and name. */
  function ParseDelete(s: string): Option<(char, string)> {
    if |s| < 5 + |GrfSuffix| || s[..3] != "^ID" || s[4] != ':' || s[|s| - |GrfSuffix|..] != GrfSuffix then None
    else Some((s[3], s[5..|s| - |GrfSuffix|]))
  }

  lemma GraphicDeleteRoundTrip(drive: char, name: string)
    ensures ParseDelete(GraphicDelete(drive, name)) == Some((drive, name))
  {
  }
}
