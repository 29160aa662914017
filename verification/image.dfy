/**
 * `src/widgets/image.rs`: a widget showing a pixmap at its natural size.
 */
module Image {
  import opened Wrappers
  import opened Geometry

  /** A pixmap's dimensions, as the pixmap library reports them (non-zero `u32`s). */
  datatype Pixmap = Pixmap(width: nat, height: nat)

  predicate ValidPixmap(p: Pixmap) {
    0 < p.width < 0x1_0000_0000 && 0 < p.height < 0x1_0000_0000
  }

  /** Rust's `as i32` on a `u32`: values from 2^31 up wrap to negative numbers. */
  function AsI32(u: nat): (r: int)
    requires u < 0x1_0000_0000
    ensures u < 0x8000_0000 ==> r == u
    ensures u >= 0x8000_0000 ==> r == u - 0x1_0000_0000 && r < 0
  {
    if u < 0x8000_0000 then u else u - 0x1_0000_0000
  }

  datatype ImageWidget = ImageWidget(pixmap: Option<Pixmap>)

  /** `Image::new`: the pixmap is always stored. */
  function New(p: Pixmap): (r: ImageWidget)
    ensures r.pixmap == Some(p)
  {
    ImageWidget(Some(p))
  }

  /** `size_hint_x`: exactly the pixmap width (0 without one), fixed. */
  function SizeHintX(w: ImageWidget): (h: SizeHint)
    requires w.pixmap.Some? ==> ValidPixmap(w.pixmap.value)
    ensures h.isFixed && h.min == h.preferred
    ensures w.pixmap.None? ==> h.preferred == 0
    ensures w.pixmap.Some? && w.pixmap.value.width < 0x8000_0000 ==> h.preferred == w.pixmap.value.width
  {
    var size := match w.pixmap
      case None => 0
      case Some(p) => AsI32(p.width);
    SizeHint(size, size, true)
  }

  /** `size_hint_y`: exactly the pixmap height (0 without one), fixed, whatever the width. */
  function SizeHintY(w: ImageWidget, sizeX: int): (h: SizeHint)
    requires w.pixmap.Some? ==> ValidPixmap(w.pixmap.value)
    ensures h.isFixed && h.min == h.preferred
    ensures w.pixmap.None? ==> h.preferred == 0
    ensures w.pixmap.Some? && w.pixmap.value.height < 0x8000_0000 ==> h.preferred == w.pixmap.value.height
  {
    var size := match w.pixmap
      case None => 0
      case Some(p) => AsI32(p.height);
    SizeHint(size, size, true)
  }

  /** A new image asks for exactly its pixmap's size, whatever width it is offered. */
  lemma NewImageHintsArePixmapSize(p: Pixmap, sizeX: int)
    requires ValidPixmap(p) && p.width < 0x8000_0000 && p.height < 0x8000_0000
    ensures SizeHintX(New(p)) == SizeHint(p.width, p.width, true)
    ensures SizeHintY(New(p), sizeX) == SizeHint(p.height, p.height, true)
  {
  }
}
