/**
 * Tensor shapes: a rank together with that many dimension sizes.
 * A scalar has rank 0; rank -1 is the sentinel of a shape that has not been
 * computed yet, and such a shape compares unequal to every shape, itself included.
 */
module Shapes {

  datatype Shape = Shape(rank: int, dims: seq<nat>) {

    /**
     * The "not yet computed" sentinel (`unintialized()`): a well-formed shape
     * is uninitialized exactly when it is not the shape of its own sizes.
     */
    function Uninitialized(): (r: bool)
      ensures Wf() ==> (r <==> this != OfDims(dims))
    {
      rank == -1
    }

    /** An initialized shape carries exactly `rank` dimension sizes. */
    predicate Wf() {
      rank == -1 || rank == |dims|
    }
  }

  /** The default-constructed shape `Shape()`: uninitialized, with no dimensions. */
  function Unset(): (s: Shape)
    ensures s.Uninitialized() && s.Wf() && s.dims == []
  {
    Shape(-1, [])
  }

  /** `Shape(0)`: the shape every scalar has. */
  const ScalarShape: Shape := Shape(0, [])

  /** The initialized shape whose dimension sizes are `d`. */
  function OfDims(d: seq<nat>): Shape {
    Shape(|d|, d)
  }

  /**
   * `Shape::operator==`: false as soon as either side is uninitialized;
   * otherwise the ranks and then the sizes are compared one by one.
   */
  method Equal(a: Shape, b: Shape) returns (r: bool)
    requires a.Wf() && b.Wf()
    ensures a.Uninitialized() || b.Uninitialized() ==> !r
    ensures r <==> !a.Uninitialized() && !b.Uninitialized() && a.rank == b.rank && a.dims == b.dims
  {
    if a.Uninitialized() || b.Uninitialized() {
      return false;
    }
    if a.rank != b.rank {
      return false;
    }
    if a.rank == 0 && b.rank == 0 {
      return true;
    }
    var i := 0;
    while i < a.rank
      invariant 0 <= i <= a.rank
      invariant forall j :: 0 <= j < i ==> a.dims[j] == b.dims[j]
    {
      if a.dims[i] != b.dims[i] {
        return false;
      }
      i := i + 1;
    }
    return true;
  }

  /** `Shape::operator!=`: the negation of `Equal`. */
  method NotEqual(a: Shape, b: Shape) returns (r: bool)
    requires a.Wf() && b.Wf()
    ensures r <==> !(!a.Uninitialized() && !b.Uninitialized() && a.dims == b.dims)
  {
    var eq := Equal(a, b);
    r := !eq;
  }
}
