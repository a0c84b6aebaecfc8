/** The Mandelbrot set renderer: viewport parameters, the one-slot hand-off of the
    viewport position from the zoom path to the next render, and the sequential
    renderer that fills a fresh raster cell by cell. The per-pixel escape-time kernel
    is floating-point maths and is a parameter `pixel` here. */
module Mandelbrot {
  import opened Raster

  datatype Option<T> = None | Some(value: T)

  /** The viewport position: half-extents kx, ky and centre (centx, centy). Nothing here
      computes with them, so exact reals stand in for float64. */
  datatype PositionParameters = PositionParameters(kx: real, ky: real, centx: real, centy: real)

  /** The position a new parameter set starts from. */
  function InitialPosition(): (p: PositionParameters) {
    PositionParameters(1.5, 1.2, -0.75, 0.0)
  }

  /** The per-pixel kernel: the colour of cell (x, y) of a w-by-h image rendered at
      the given position. */
  type Kernel = (PositionParameters, int, int, int, int) -> RGBA

  class Parameters {
    var depth: int
    var zoom: real
    var rph: real, gph: real, bph: real  // phases of the RGB channels
    var rfr: real, gfr: real, bfr: real  // frequencies of the RGB channels
    var kx: real, ky: real, centx: real, centy: real
    /** A buffered channel of capacity 1: None when empty, Some(p) when it holds p. */
    var position: Option<PositionParameters>

    /** The position these parameters currently describe. */
    function Current(): (p: PositionParameters)
      reads this
    {
      PositionParameters(kx, ky, centx, centy)
    }

    /** NewParameters: the default colouring, depth and position, with that position
        already sent, so the first render adopts it. */
    constructor ()
      ensures depth == 500 && zoom == 1.0
      ensures rph == 4.0 && gph == 2.0 && bph == 1.0
      ensures rfr == 0.15 && gfr == 0.15 && bfr == 0.10
      ensures Current() == InitialPosition()
      ensures position == Some(InitialPosition())
    {
      depth, zoom := 500, 1.0;
      rph, gph, bph := 4.0, 2.0, 1.0;
      rfr, gfr, bfr := 0.15, 0.15, 0.10;
      kx, ky, centx, centy := 1.5, 1.2, -0.75, 0.0;
      position := None;
      new;
      SendPosition();
    }

    /** Puts a copy of the current position into the slot. The send blocks while the
        slot is full, so it completes only on an empty slot and never overwrites. */
    method SendPosition()
      requires position.None?
      modifies this`position
      ensures position == Some(Current())
    {
      position := Some(PositionParameters(kx, ky, centx, centy));
    }

    /** Zoom, with its floating-point transform taken as given: `next` is the position
        that transform computes. The position fields take it and it is sent. */
    method Zoom(next: PositionParameters)
      requires position.None?
      modifies this`kx, this`ky, this`centx, this`centy, this`position
      ensures Current() == next
      ensures position == Some(next)
    {
      kx, ky, centx, centy := next.kx, next.ky, next.centx, next.centy;
      SendPosition();
    }
  }

  class MandelbrotSet {
    var params: Parameters
    var name: string
    /** The position the renderer last adopted; the zero position until the first render. */
    var pos: PositionParameters

    constructor New()
      ensures fresh(params)
      ensures params.depth == 500 && params.zoom == 1.0
      ensures params.rph == 4.0 && params.gph == 2.0 && params.bph == 1.0
      ensures params.rfr == 0.15 && params.gfr == 0.15 && params.bfr == 0.10
      ensures params.Current() == InitialPosition()
      ensures params.position == Some(InitialPosition())
      ensures name == "Mandelbrot set"
      ensures pos == PositionParameters(0.0, 0.0, 0.0, 0.0)
    {
      params := new Parameters();
      name := "Mandelbrot set";
      pos := PositionParameters(0.0, 0.0, 0.0, 0.0);
    }

    method Zoom(next: PositionParameters)
      requires params.position.None?
      modifies params`kx, params`ky, params`centx, params`centy, params`position
      ensures params.Current() == next
      ensures params.position == Some(next)
    {
      params.Zoom(next);
    }

    /** Takes a pending position without waiting (keeping the previous one when the slot
        is empty) and renders a w-by-h image at the adopted position. */
    method ImageRender(w: nat, h: nat, pixel: Kernel) returns (img: array2<RGBA>)
      modifies this`pos, params`position
      ensures old(params.position).Some? ==> pos == old(params.position).value
      ensures old(params.position).None? ==> pos == old(pos)
      ensures params.position == None
      ensures fresh(img) && img.Length0 == w && img.Length1 == h
      ensures forall x, y :: 0 <= x < w && 0 <= y < h ==> img[x, y] == pixel(pos, w, h, x, y)
    {
      if params.position.Some? {
        pos := params.position.value;
        params.position := None;
      }
      ghost var order;
      img, order := Sequential(w, h, pixel);
    }

    /** Fills a fresh w-by-h image, row by row and each row left to right, with the
        kernel's colour of every cell at the current position. `order` records the
        cells in the order they are written. */
    method Sequential(w: nat, h: nat, pixel: Kernel) returns (img: array2<RGBA>, ghost order: seq<(nat, nat)>)
      ensures fresh(img) && img.Length0 == w && img.Length1 == h
      ensures forall x, y :: 0 <= x < w && 0 <= y < h ==> img[x, y] == pixel(pos, w, h, x, y)
      ensures order == RowMajor(w, h)
    {
      img := new RGBA[w, h];
      order := [];
      var y := 0;
      while y < h
        invariant 0 <= y <= h
        invariant forall i, j :: 0 <= i < w && 0 <= j < y ==> img[i, j] == pixel(pos, w, h, i, j)
        invariant order == RowMajor(w, y)
      {
        var x := 0;
        while x < w
          invariant 0 <= x <= w
          invariant forall i, j :: 0 <= i < w && 0 <= j < y ==> img[i, j] == pixel(pos, w, h, i, j)
          invariant forall i :: 0 <= i < x ==> img[i, y] == pixel(pos, w, h, i, y)
          invariant order == RowMajor(w, y) + Row(w, y)[..x]
        {
          img[x, y] := pixel(pos, w, h, x, y);
          order := order + [(x, y)];
          x := x + 1;
        }
        assert Row(w, y)[..w] == Row(w, y);
        y := y + 1;
      }
    }
  }

  /** A session as the window drives it: two repaints, a zoom, a third repaint. The
      first render adopts the initial position and paints with it, the second finds the
      slot empty and keeps it, and the render after the zoom adopts the zoomed position. */
  method RenderSession(w: nat, h: nat, pixel: Kernel, next: PositionParameters)
    returns (firstImage: array2<RGBA>, first: PositionParameters, second: PositionParameters,
             third: PositionParameters)
    ensures firstImage.Length0 == w && firstImage.Length1 == h
    ensures forall x, y :: 0 <= x < w && 0 <= y < h ==>
              firstImage[x, y] == pixel(InitialPosition(), w, h, x, y)
    ensures first == InitialPosition()
    ensures second == InitialPosition()
    ensures third == next
  {
    var s := new MandelbrotSet.New();
    firstImage := s.ImageRender(w, h, pixel);
    first := s.pos;
    var image := s.ImageRender(w, h, pixel);
    second := s.pos;
    s.Zoom(next);
    image := s.ImageRender(w, h, pixel);
    third := s.pos;
  }
}
