/**
 * The `pfs::Channel` interface of Libpfs/channel.h: a named `width` x `height`
 * plane of samples with an attached tag container.  Only the raw-buffer
 * contract written in the interface's doc comments is modelled: the buffer
 * holds `width*height` samples in row-major order and element (x, y) lives at
 * index `x + y*width`, with width = cols and height = rows.
 */
module PfsChannel {

  /** One float sample; no arithmetic is done on samples here. */
  type Sample

  /** The channel's `TagContainer`, whose implementation is not part of this model. */
  type TagContainer

  /** A channel: its name, its `cols` x `rows` plane as a raw buffer, and its tags. */
  datatype Channel = Channel(name: string, cols: nat, rows: nat, raw: seq<Sample>, tags: TagContainer)
  {
    /** `getWidth()`, a synonym for the plane's `getCols()`. */
    function Width(): nat { cols }

    /** `getHeight()`, a synonym for the plane's `getRows()`. */
    function Height(): nat { rows }

    /** `getName()`. */
    function Name(): string { name }

    /** `getRawData()`: the row-major buffer itself. */
    function RawData(): seq<Sample> { raw }

    /** The raw buffer is a table of exactly `width*height` samples. */
    ghost predicate Valid()
    {
      |raw| == cols * rows
    }

    /** (x, y) addresses an element of the plane. */
    predicate InRange(x: int, y: int)
    {
      0 <= x < cols && 0 <= y < rows
    }
  }

  /**
   * `ChannelImpl(width, height, name)`: a fresh channel of the given size.  The
   * initial sample values are not fixed by the interface; the caller picks one.
   */
  function NewChannel(width: nat, height: nat, name: string, fill: Sample, tags: TagContainer): (c: Channel)
    ensures c.Valid()
    ensures c.Width() == width && c.Height() == height && c.Name() == name
    ensures |c.RawData()| == width * height
    ensures forall i :: 0 <= i < |c.RawData()| ==> c.RawData()[i] == fill
  {
    Channel(name, width, height, seq(width * height, _ => fill), tags)
  }

  /** Position of element (x, y) in a row-major buffer of the given width. */
  function RawIndex(width: nat, x: nat, y: nat): (i: nat)
  {
    x + y * width
  }

  /** Element (x, y) of a `width` x `height` plane has an index inside the buffer. */
  lemma RawIndexInBuffer(width: nat, height: nat, x: nat, y: nat)
    requires x < width && y < height
    ensures RawIndex(width, x, y) < width * height
  {
    assert y * width <= (height - 1) * width by {
      MulMonotone(y, height - 1, width);
    }
    assert (height - 1) * width + width == height * width;
  }

  lemma MulMonotone(a: nat, b: nat, c: nat)
    requires a <= b
    ensures a * c <= b * c
  {
  }

  /** Coordinates (column, row) of buffer index `i` in a plane of the given width. */
  function Coord(width: nat, i: nat): (p: (nat, nat))
    requires width > 0
  {
    (i % width, i / width)
  }

  /** Reading coordinates back from an index gives the coordinates that made it. */
  lemma CoordOfRawIndex(width: nat, x: nat, y: nat)
    requires x < width
    ensures Coord(width, RawIndex(width, x, y)) == (x, y)
  {
    var i := RawIndex(width, x, y);
    DivModUnique(width, i, x, y);
  }

  /** Every buffer index is the index of exactly the element its coordinates name. */
  lemma RawIndexOfCoord(width: nat, height: nat, i: nat)
    requires width > 0 && i < width * height
    ensures Coord(width, i).0 < width && Coord(width, i).1 < height
    ensures RawIndex(width, Coord(width, i).0, Coord(width, i).1) == i
    ensures forall x: nat, y: nat :: x < width && RawIndex(width, x, y) == i ==> (x, y) == Coord(width, i)
  {
    forall x: nat, y: nat | x < width && RawIndex(width, x, y) == i
      ensures (x, y) == Coord(width, i)
    {
      CoordOfRawIndex(width, x, y);
    }
    var q := i / width;
    if q >= height {
      MulMonotone(height, q, width);
      assert false;
    }
  }

  lemma DivModUnique(width: nat, i: nat, x: nat, y: nat)
    requires x < width && i == x + y * width
    ensures i % width == x && i / width == y
  {
    var q, r := i / width, i % width;
    assert q * width + r == y * width + x;
    if q < y {
      MulMonotone(q + 1, y, width);
      assert false;
    } else if q > y {
      MulMonotone(y + 1, q, width);
      assert false;
    }
  }

  /** Two distinct in-range elements never share a buffer slot. */
  lemma RawIndexInjective(width: nat, x1: nat, y1: nat, x2: nat, y2: nat)
    requires x1 < width && x2 < width
    requires RawIndex(width, x1, y1) == RawIndex(width, x2, y2)
    ensures x1 == x2 && y1 == y2
  {
    CoordOfRawIndex(width, x1, y1);
    CoordOfRawIndex(width, x2, y2);
  }

  /** `data[x + y*width]`, read through the raw buffer. */
  function Get(c: Channel, x: nat, y: nat): (v: Sample)
    requires c.Valid() && c.InRange(x, y)
    ensures RawIndex(c.Width(), x, y) < |c.RawData()| && v == c.RawData()[RawIndex(c.Width(), x, y)]
  {
    RawIndexInBuffer(c.cols, c.rows, x, y);
    c.raw[x + y * c.cols]
  }

  /** `data[x + y*width] = v`, a write through the raw buffer. */
  function Set(c: Channel, x: nat, y: nat, v: Sample): (c': Channel)
    requires c.Valid() && c.InRange(x, y)
    ensures c'.Valid()
    ensures c'.Width() == c.Width() && c'.Height() == c.Height()
    ensures c'.Name() == c.Name() && c'.tags == c.tags
  {
    RawIndexInBuffer(c.cols, c.rows, x, y);
    c.(raw := c.raw[x + y * c.cols := v])
  }

  /**
   * A write to element (x, y) is seen at (x, y) and nowhere else: the raw
   * buffer and the (column, row) view address the same storage.
   */
  lemma GetAfterSet(c: Channel, x: nat, y: nat, v: Sample, x2: nat, y2: nat)
    requires c.Valid() && c.InRange(x, y) && c.InRange(x2, y2)
    ensures Get(Set(c, x, y, v), x2, y2) == if x == x2 && y == y2 then v else Get(c, x2, y2)
  {
    if RawIndex(c.cols, x, y) == RawIndex(c.cols, x2, y2) {
      RawIndexInjective(c.cols, x, y, x2, y2);
    }
  }
}
