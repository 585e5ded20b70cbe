/** `ZPLCommands.CustomStringWrite`: prints a custom string by storing its
    rendered image on the printer under a fresh name and placing it. Each
    call takes the next number of a process-wide counter for the name. */
module Commands {
  import opened Wrappers
  import opened Formatting
  import opened Raster
  import opened GraphicCommands
  import opened GraphicDecode
  import opened CustomText

  /** The name of the `n`-th stored text image: `SZT{n:00000}`. */
  function GraphicName(n: nat): (name: string)
    ensures |name| >= 8 && name[..3] == "SZT"
  {
    ZeroPaddedValue(n, 5);
    "SZT" + ZeroPadded(n, 5)
  }

  /** The name the first call hands out. */
  lemma GraphicNameExample()
    ensures GraphicName(1) == "SZT00001"
  {
    assert NatToString(1) == "1";
    assert Zeros(4) == "0000";
  }

  /** After the `SZT` prefix a name holds only digits, and they denote `n`:
      in particular a name never contains the comma that ends a name in
      the store command. */
  lemma GraphicNameDigits(n: nat)
    ensures AllDigits(GraphicName(n)[3..]) && DigitsValue(GraphicName(n)[3..]) == n
    ensures ',' !in GraphicName(n)
  {
    ZeroPaddedValue(n, 5);
    var name := GraphicName(n);
    assert name[3..] == ZeroPadded(n, 5);
  }

  /** Different counter values give different names. */
  lemma GraphicNameInjective(m: nat, n: nat)
    requires m != n
    ensures GraphicName(m) != GraphicName(n)
  {
    GraphicNameDigits(m);
    GraphicNameDigits(n);
  }

  /** The drive: the one asked for, else the printer's RAM drive, else `R`. */
  function ResolveDrive(ramDrive: Option<char>, printerDrive: Option<char>): (d: char)
    ensures ramDrive.Some? ==> d == ramDrive.value
    ensures ramDrive.None? && printerDrive.Some? ==> d == printerDrive.value
    ensures ramDrive.None? && printerDrive.None? ==> d == 'R'
  {
    match ramDrive
    case Some(drive) => drive
    case None =>
      match printerDrive
      case Some(drive) => drive
      case None => 'R'
  }

  /** Why a custom string could not be written: it has no image (no font,
      or no text), and the store command dereferences it. */
  datatype WriteError = NullImage

  /** The static state of `ZPLCommands` that `CustomStringWrite` uses: the
      counter, the printer's RAM drive (if printer settings are known) and
      the renderer new custom strings draw with. */
  class ZplCommands {
    var stringCounter: nat
    var printerDrive: Option<char>
    const render: Renderer
    /** The names handed out so far. */
    ghost var usedNames: set<string>

    ghost predicate Valid()
      reads this
    {
      forall name :: name in usedNames <==> exists n :: 1 <= n <= stringCounter && name == GraphicName(n)
    }

    constructor (printerDrive: Option<char>, render: Renderer)
      ensures Valid()
      ensures stringCounter == 0 && usedNames == {}
      ensures this.printerDrive == printerDrive && this.render == render
    {
      stringCounter := 0;
      this.printerDrive := printerDrive;
      this.render := render;
      usedNames := {};
    }

    /** Writes a custom string at (`left`, `top`): the store command for
        its image under the next `SZT` name, then the placement command
        for that name, both on the same drive. The counter advances even
        when the string has no image and the call fails. */
    method CustomStringWrite(left: int, top: int, customString: CustomString, ramDrive: Option<char>)
      returns (res: Result<string, WriteError>)
      requires Valid()
      modifies this
      ensures Valid()
      ensures stringCounter == old(stringCounter) + 1
      ensures printerDrive == old(printerDrive)
      ensures GraphicName(stringCounter) !in old(usedNames)
      ensures usedNames == old(usedNames) + {GraphicName(stringCounter)}
      ensures customString.customImage.None? ==> res == Failure(NullImage)
      ensures customString.customImage.Some? ==>
        var name, drive := GraphicName(stringCounter), ResolveDrive(ramDrive, printerDrive);
        res == Success(StoreCommand(customString.customImage.value, drive, name) + GraphicWrite(left, top, name, drive))
    {
      stringCounter := stringCounter + 1;
      var name := GraphicName(stringCounter);
      FreshName(old(usedNames), old(stringCounter));
      usedNames := usedNames + {name};
      var drive := ResolveDrive(ramDrive, printerDrive);
      if customString.customImage.None? {
        return Failure(NullImage);
      }
      var store := GraphicStore(customString.customImage.value, drive, name);
      res := Success(store + GraphicWrite(left, top, name, drive));
    }

    /** The overload taking the text's properties: builds a custom string
        by setting its font, rotation and text, then writes it. */
    method CustomStringWriteText(left: int, top: int, rotation: Rotation, font: Option<Font>, text: Option<string>, ramDrive: Option<char>)
      returns (res: Result<string, WriteError>)
      requires Valid()
      modifies this
      ensures Valid()
      ensures stringCounter == old(stringCounter) + 1
      ensures printerDrive == old(printerDrive)
      ensures GraphicName(stringCounter) !in old(usedNames)
      ensures usedNames == old(usedNames) + {GraphicName(stringCounter)}
      ensures !CanRender(font, text) ==> res == Failure(NullImage)
      ensures CanRender(font, text) ==>
        var name, drive := GraphicName(stringCounter), ResolveDrive(ramDrive, printerDrive);
        res == Success(StoreCommand(render(text.value, font.value, rotation), drive, name) + GraphicWrite(left, top, name, drive))
    {
      var s := new CustomString(render);
      s.SetFont(font);
      s.SetRotation(rotation);
      s.SetText(text);
      res := CustomStringWrite(left, top, s, ramDrive);
    }
  }

  /** The next name has not been used: every used name carries a smaller
      counter value. */
  lemma FreshName(used: set<string>, counter: nat)
    requires forall name :: name in used <==> exists n :: 1 <= n <= counter && name == GraphicName(n)
    ensures GraphicName(counter + 1) !in used
  {
    if GraphicName(counter + 1) in used {
      var n :| 1 <= n <= counter && GraphicName(counter + 1) == GraphicName(n);
      GraphicNameInjective(n, counter + 1);
    }
  }

  /** The two commands a successful write produces agree: read back, the
      store command stores the image's grid under the name and on the
      drive that the placement command then recalls. */
  lemma WriteRecallsStoredImage(img: Bitmap, n: nat, drive: char, left: int, top: int)
    ensures var stored := ParseStore(StoreCommand(img, drive, GraphicName(n)));
      var placed := ParsePlacement(GraphicWrite(left, top, GraphicName(n), drive));
      stored.Some? && placed.Some?
      && stored.value.name == placed.value.name == GraphicName(n)
      && stored.value.drive == placed.value.drive == drive
      && placed.value.left == left && placed.value.top == top
      && Unpack(stored.value.rows, img.width) == OnGrid(img)
  {
    GraphicNameDigits(n);
    StoreCommandKeepsImage(img, drive, GraphicName(n));
    GraphicWriteRoundTrip(left, top, GraphicName(n), drive);
  }
}
