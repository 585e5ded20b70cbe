/** `ZPLCommands.CustomString`: a text, a font and a rotation, kept
    together with the image the text renders to. Setting a property to a
    new value re-renders the image; setting it to its current value does
    nothing. Rendering itself (measuring, drawing and rotating with
    System.Drawing) is a parameter of the model. */
module CustomText {
  import opened Wrappers
  import opened Raster

  /** A font, compared by value as `Font.Equals` compares fonts: its family,
      its em-size in points (10.5, say) and its style flags. */
  datatype Font = Font(family: string, size: real, style: nat)

  /** `ElementDrawRotation`: how the rendered text is turned. */
  datatype Rotation = NoRotation | Rotate90 | Rotate180 | Rotate270

  /** Draws a non-empty text in a font, black on white, sized to fit and
      turned by the rotation. */
  type Renderer = (string, Font, Rotation) -> Bitmap

  /** Whether `InitGraphic` renders anything: only with a font and a
      non-empty text. */
  predicate CanRender(font: Option<Font>, text: Option<string>) {
    font.Some? && text.Some? && text.value != ""
  }

  /** The image `InitGraphic` leaves behind for the given properties. */
  function RenderedImage(render: Renderer, font: Option<Font>, text: Option<string>, rotation: Rotation): (img: Option<Bitmap>)
    ensures img.None? <==> font.None? || text.None? || text == Some("")
  {
    if CanRender(font, text) then Some(render(text.value, font.value, rotation)) else None
  }

  class CustomString {
    const render: Renderer
    var font: Option<Font>
    var rotation: Rotation
    var text: Option<string>
    var customImage: Option<Bitmap>

    /** The image always belongs to the current text, font and rotation. */
    ghost predicate Valid()
      reads this
    {
      customImage == RenderedImage(render, font, text, rotation)
    }

    /** A new custom string: no font, no text, no rotation and so no image. */
    constructor (render: Renderer)
      ensures Valid()
      ensures this.render == render
      ensures font.None? && text.None? && rotation == NoRotation && customImage.None?
    {
      this.render := render;
      font := None;
      rotation := NoRotation;
      text := None;
      customImage := None;
    }

    /** Re-renders the image from the current properties. */
    method InitGraphic()
      modifies this
      ensures Valid()
      ensures font == old(font) && rotation == old(rotation) && text == old(text)
    {
      if font.None? || text.None? || text.value == "" {
        customImage := None;
        return;
      }
      customImage := Some(render(text.value, font.value, rotation));
    }

    /** The `Text` setter. */
    method SetText(value: Option<string>)
      requires Valid()
      modifies this
      ensures Valid()
      ensures text == value && font == old(font) && rotation == old(rotation)
      ensures value == old(text) ==> unchanged(this)
    {
      if value == text {
        return;
      }
      text := value;
      InitGraphic();
    }

    /** The `Font` setter. */
    method SetFont(value: Option<Font>)
      requires Valid()
      modifies this
      ensures Valid()
      ensures font == value && text == old(text) && rotation == old(rotation)
      ensures value == old(font) ==> unchanged(this)
    {
      if value == font {
        return;
      }
      font := value;
      InitGraphic();
    }

    /** The `Rotation` setter. */
    method SetRotation(value: Rotation)
      requires Valid()
      modifies this
      ensures Valid()
      ensures rotation == value && font == old(font) && text == old(text)
      ensures value == old(rotation) ==> unchanged(this)
    {
      if value == rotation {
        return;
      }
      rotation := value;
      InitGraphic();
    }

    /** The image width, 0 when there is no image: in particular whenever
        the font is missing or the text is missing or empty. */
    function TextWidth(): (w: nat)
      reads this
      ensures Valid() && !CanRender(font, text) ==> w == 0
      ensures Valid() && CanRender(font, text) ==> w == render(text.value, font.value, rotation).width
    {
      if customImage.None? then 0 else customImage.value.width
    }

    /** The image height, 0 when there is no image. */
    function TextHeight(): (h: nat)
      reads this
      ensures Valid() && !CanRender(font, text) ==> h == 0
      ensures Valid() && CanRender(font, text) ==> h == render(text.value, font.value, rotation).height
    {
      if customImage.None? then 0 else customImage.value.height
    }
  }
}
