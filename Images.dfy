/**
 * Value views of the ImgLib2 images the core reads and writes: dense
 * planes and volumes of real samples, stored in array order (first
 * coordinate fastest).
 */
module Images {
  import opened Grid

  datatype Option<T> = None | Some(value: T)

  /** The Java runtime exceptions the core can raise on its error paths. */
  datatype Exception = NullPointer | IndexOutOfBounds | NegativeArraySize | DivisionByZero

  /** A value, or the exception raised instead of returning it. */
  datatype Result<T> = Success(value: T) | Failure(exception: Exception)

  /** A 2-D image of width w and height h. */
  datatype Plane = Plane(w: nat, h: nat, data: seq<real>) {
    predicate Valid()
    {
      |data| == w * h
    }

    function At(x: int, y: int): real
      requires Valid() && 0 <= x < w && 0 <= y < h
    {
      Flat2InRange(x, y, w, h);
      data[Flat2(x, y, w)]
    }
  }

  /** A 3-D image of width w, height h and depth d. */
  datatype Volume = Volume(w: nat, h: nat, d: nat, data: seq<real>) {
    predicate Valid()
    {
      |data| == w * h * d
    }

    function At(x: int, y: int, z: int): real
      requires Valid() && 0 <= x < w && 0 <= y < h && 0 <= z < d
    {
      Flat3InRange(x, y, z, w, h, d);
      data[Flat3(x, y, z, w, h)]
    }
  }

  /** An image of any number of dimensions, as the ops receive it: its
      dimensions and its samples in array order. */
  datatype Image = Image(dims: seq<int>, data: seq<real>)

  /** A plane of the given shape filled with zeros, as an image factory creates it. */
  function ZeroPlane(w: nat, h: nat): (p: Plane)
    ensures p.Valid() && p.w == w && p.h == h
    ensures forall i :: 0 <= i < |p.data| ==> p.data[i] == 0.0
  {
    Plane(w, h, seq(w * h, _ => 0.0))
  }
}
