/**
 * The film: a fixed `width` x `height` buffer of spectra stored row by row,
 * pixel `(x, y)` at position `x + y * width`.
 */
module Films {
  import opened Wrappers
  import opened Spectra

  /** Multiplying both sides by a natural number keeps `a <= b`. */
  lemma MulMono(a: int, b: int, c: nat)
    requires a <= b
    ensures a * c <= b * c
  {
  }

  /** Euclidean division undoes the row-major layout: the index splits back into `x` and `y`. */
  lemma RowMajorSplit(w: nat, x: nat, y: nat)
    requires x < w
    ensures IndexUnchecked(w, x, y) / w == y && IndexUnchecked(w, x, y) % w == x
  {
    var i := x + y * w;
    var q, r := i / w, i % w;
    assert i == q * w + r && 0 <= r < w;
    if q > y {
      MulMono(y + 1, q, w);
      assert false;
    } else if q < y {
      MulMono(q + 1, y, w);
      assert false;
    }
  }

  /**
   * `index_unchecked`: the row-major position of pixel `(x, y)`, with no
   * bounds check. For `x < width` it falls within the span of row `y`.
   */
  function IndexUnchecked(width: nat, x: nat, y: nat): (i: nat)
    ensures y * width <= i
    ensures x < width ==> i < y * width + width
  {
    x + y * width
  }

  /** Pixels inside the film map below `width * height`. */
  lemma IndexInBounds(width: nat, height: nat, x: nat, y: nat)
    requires x < width && y < height
    ensures IndexUnchecked(width, x, y) < width * height
  {
    MulMono(y + 1, height, width);
  }

  /** Distinct pixels inside the film occupy distinct cells. */
  lemma IndexInjective(width: nat, x1: nat, y1: nat, x2: nat, y2: nat)
    requires x1 < width && x2 < width
    requires IndexUnchecked(width, x1, y1) == IndexUnchecked(width, x2, y2)
    ensures x1 == x2 && y1 == y2
  {
    RowMajorSplit(width, x1, y1);
    RowMajorSplit(width, x2, y2);
  }

  /**
   * `index` exactly as written: it panics (here `None`) unless `x <= width`
   * and `y <= height`, so it admits one column and one row past the film.
   */
  function IndexAsWritten(width: nat, height: nat, x: nat, y: nat): (r: Option<nat>)
    ensures r.Some? <==> x <= width && y <= height
    ensures r.Some? ==> r.value == IndexUnchecked(width, x, y)
  {
    if x <= width && y <= height then Some(IndexUnchecked(width, x, y)) else None
  }

  /** The `<=` guard lets pixel `(width, height - 1)` through, and it maps one past the last cell. */
  lemma IndexAsWrittenOnePastEnd(width: nat, height: nat)
    requires width > 0 && height > 0
    ensures IndexAsWritten(width, height, width, height - 1) == Some(width * height)
    ensures IndexAsWritten(width, height, width, height) == Some(width * height + width)
  {
    assert width + (height - 1) * width == width * height;
  }

  /** `index` with the bounds check it is meant to make: `x < width` and `y < height`. */
  function Index(width: nat, height: nat, x: nat, y: nat): (r: Option<nat>)
    ensures r.Some? <==> x < width && y < height
    ensures r.Some? ==> r.value < width * height && r.value == IndexUnchecked(width, x, y)
  {
    if x < width && y < height then
      IndexInBounds(width, height, x, y);
      Some(IndexUnchecked(width, x, y))
    else
      None
  }

  class Film {
    const width: nat
    const height: nat
    const data: array<Spectrum>

    ghost predicate Valid()
    {
      data.Length == width * height
    }

    /** The buffer's contents, row-major. */
    function Cells(): seq<Spectrum>
      reads data
    {
      data[..]
    }

    /** `new`: a black film. */
    constructor New(width: nat, height: nat)
      ensures Valid() && fresh(data)
      ensures this.width == width && this.height == height
      ensures Cells() == seq(width * height, _ => Black())
    {
      this.width, this.height := width, height;
      data := new Spectrum[width * height](_ => Black());
    }

    /** `new_with_color`: every one of the `width * height` cells holds `color`. */
    constructor NewWithColor(width: nat, height: nat, color: Spectrum)
      ensures Valid() && fresh(data)
      ensures this.width == width && this.height == height
      ensures Cells() == seq(width * height, _ => color)
    {
      this.width, this.height := width, height;
      data := new Spectrum[width * height](_ => color);
    }

    /** `size`: the length of the buffer, which is always `width * height`. */
    function Size(): (n: nat)
      requires Valid()
      ensures n == width * height
    {
      data.Length
    }

    /**
     * `at`: the value of the cell the checked index as written picks for
     * `(x, y)`. `None` where `index` panics (`x > width` or `y > height`),
     * and where the index it lets through lies past the buffer, a read the
     * unchecked access does not guard. Inside the film it is pixel `(x, y)`.
     */
    function At(x: nat, y: nat): (r: Option<Spectrum>)
      requires Valid()
      reads data
      ensures r.Some? <==> x <= width && y <= height && IndexUnchecked(width, x, y) < width * height
      ensures r.Some? ==> r.value == Cells()[IndexUnchecked(width, x, y)]
      ensures x < width && y < height ==> r == Some(Cells()[Index(width, height, x, y).value])
    {
      match IndexAsWritten(width, height, x, y)
      case None => None
      case Some(i) => if i < data.Length then Some(data[i]) else None
    }

    /**
     * `at_mut` followed by a write through the returned reference: the cell
     * the checked index as written picks gets `v` and no other cell changes.
     * Where `index` panics, or picks a cell past the buffer, `ok` is false
     * and nothing changes.
     */
    method AtMut(x: nat, y: nat, v: Spectrum) returns (ok: bool)
      requires Valid()
      modifies data
      ensures ok <==> x <= width && y <= height && IndexUnchecked(width, x, y) < width * height
      ensures ok ==> Cells() == old(Cells())[IndexUnchecked(width, x, y) := v]
      ensures !ok ==> Cells() == old(Cells())
    {
      var i := IndexAsWritten(width, height, x, y);
      ok := i.Some? && i.value < data.Length;
      if ok {
        data[i.value] := v;
      }
    }
  }

  /**
   * The written guard lets `x == width` through: inside the film's height it
   * reads the first pixel of the next row, and on the last row it reads
   * past the buffer.
   */
  lemma AtWrapsToNextRow(film: Film, y: nat)
    requires film.Valid() && film.width > 0 && y < film.height
    ensures y + 1 < film.height ==> film.At(film.width, y).Some? && film.At(film.width, y) == film.At(0, y + 1)
    ensures y + 1 == film.height ==> film.At(film.width, y) == None
  {
    assert IndexUnchecked(film.width, film.width, y) == IndexUnchecked(film.width, 0, y + 1);
    if y + 1 < film.height {
      IndexInBounds(film.width, film.height, 0, y + 1);
    }
  }

  /** After a write to pixel `(x, y)`, that pixel reads back the value written and every other pixel reads as before. */
  lemma AtMutFrame(width: nat, height: nat, before: seq<Spectrum>, after: seq<Spectrum>,
                   x: nat, y: nat, v: Spectrum, x': nat, y': nat)
    requires |before| == width * height && x < width && y < height
    requires after == before[Index(width, height, x, y).value := v]
    requires x' < width && y' < height
    ensures (x', y') == (x, y) ==> after[Index(width, height, x', y').value] == v
    ensures (x', y') != (x, y) ==> after[Index(width, height, x', y').value] == before[Index(width, height, x', y').value]
  {
    if (x', y') != (x, y) && Index(width, height, x, y) == Index(width, height, x', y') {
      IndexInjective(width, x, y, x', y');
    }
  }
}
