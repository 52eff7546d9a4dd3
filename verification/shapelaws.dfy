/**
 * What the shape check means. `ShapeOf` accepts exactly the homogeneous
 * (NumPy-style) arrays and answers their shape; a tensor mixing scalars and
 * tensors, or sub-tensors of different shapes, is rejected; and a second check
 * of the same tensor leaves the memo as the first one left it.
 */
module ShapeLaws {
  import opened Shapes
  import opened Values

  /** The first dimension of an accepted node is its next-level count. */
  lemma ShapeHead(nodes: seq<Node>, v: nat)
    requires WellFormed(nodes) && v < |nodes| && ShapeOf(nodes, v).Some?
    ensures nodes[v].Scalar? <==> ShapeOf(nodes, v).value == []
    ensures nodes[v].Tensor? ==> ShapeOf(nodes, v).value[0] == NextDim(nodes, v)
  {
  }

  /** Every shape the check answers is one the node conforms to. */
  lemma {:induction false} ShapeOfSound(nodes: seq<Node>, v: nat)
    requires WellFormed(nodes) && v < |nodes| && ShapeOf(nodes, v).Some?
    ensures Conforms(nodes, v, ShapeOf(nodes, v).value)
    decreases v
  {
    match nodes[v]
    case Scalar =>
    case Tensor(cs) =>
      assert ElemsBelow(nodes[v], v);
      var d := ShapeOf(nodes, v).value;
      assert Uniform(nodes, v);
      if NextDim(nodes, cs[0]) == 0 {
        forall i | 0 <= i < |cs| ensures Conforms(nodes, cs[i], d[1..]) {
          assert NextDim(nodes, cs[i]) == 0;
          assert nodes[cs[i]].Scalar? by {
            assert ElemsBelow(nodes[cs[i]], cs[i]);
          }
        }
      } else {
        var e := ShapeOf(nodes, cs[0]).value;
        assert d == [|cs|] + e;
        forall i | 0 <= i < |cs| ensures Conforms(nodes, cs[i], d[1..]) {
          assert ShapeOf(nodes, cs[i]) == Some(e);
          ShapeOfSound(nodes, cs[i]);
        }
      }
  }

  /** Every node that conforms to a shape is accepted with exactly that shape. */
  lemma {:induction false} ShapeOfComplete(nodes: seq<Node>, v: nat, d: seq<nat>)
    requires WellFormed(nodes) && v < |nodes| && Conforms(nodes, v, d)
    ensures ShapeOf(nodes, v) == Some(d)
    decreases v
  {
    match nodes[v]
    case Scalar =>
    case Tensor(cs) =>
      assert ElemsBelow(nodes[v], v);
      var e := d[1..];
      forall i | 0 <= i < |cs| ensures ShapeOf(nodes, cs[i]) == Some(e) {
        ShapeOfComplete(nodes, cs[i], e);
      }
      forall i | 0 <= i < |cs| ensures NextDim(nodes, cs[i]) == NextDim(nodes, cs[0]) {
        ShapeHead(nodes, cs[i]);
        ShapeHead(nodes, cs[0]);
      }
      assert Uniform(nodes, v);
      ShapeHead(nodes, cs[0]);
      if NextDim(nodes, cs[0]) == 0 {
        assert e == [];
        assert d == [|cs|];
      } else {
        assert d == [|cs|] + e;
      }
  }

  /** The check answers `d` for node `v` exactly when `v` is an array of shape `d`. */
  lemma ShapeOfIff(nodes: seq<Node>, v: nat, d: seq<nat>)
    requires WellFormed(nodes) && v < |nodes|
    ensures ShapeOf(nodes, v) == Some(d) <==> Conforms(nodes, v, d)
  {
    if ShapeOf(nodes, v) == Some(d) {
      ShapeOfSound(nodes, v);
    }
    if Conforms(nodes, v, d) {
      ShapeOfComplete(nodes, v, d);
    }
  }

  /** A node conforms to at most one shape. */
  lemma ConformsUnique(nodes: seq<Node>, v: nat, d1: seq<nat>, d2: seq<nat>)
    requires WellFormed(nodes) && v < |nodes|
    requires Conforms(nodes, v, d1) && Conforms(nodes, v, d2)
    ensures d1 == d2
  {
    ShapeOfComplete(nodes, v, d1);
    ShapeOfComplete(nodes, v, d2);
  }

  /** A tensor holding a scalar next to a tensor has no shape. */
  lemma MixedFails(nodes: seq<Node>, t: nat, i: nat, j: nat)
    requires WellFormed(nodes) && t < |nodes| && nodes[t].Tensor?
    requires i < |nodes[t].elems| && j < |nodes[t].elems|
    requires nodes[Elems(nodes, t)[i]].Scalar? && nodes[Elems(nodes, t)[j]].Tensor?
    ensures ShapeOf(nodes, t).None?
  {
    var cs := nodes[t].elems;
    assert ElemsBelow(nodes[t], t);
    assert ElemsBelow(nodes[cs[j]], cs[j]);
    assert NextDim(nodes, cs[i]) != NextDim(nodes, cs[j]);
  }

  /** A tensor whose sub-tensors have different shapes has no shape. */
  lemma RaggedFails(nodes: seq<Node>, t: nat, i: nat, j: nat)
    requires WellFormed(nodes) && t < |nodes| && nodes[t].Tensor?
    requires i < |nodes[t].elems| && j < |nodes[t].elems|
    requires ShapeOf(nodes, Elems(nodes, t)[i]).Some? && ShapeOf(nodes, Elems(nodes, t)[j]).Some? &&
             ShapeOf(nodes, Elems(nodes, t)[i]) != ShapeOf(nodes, Elems(nodes, t)[j])
    ensures ShapeOf(nodes, t).None?
  {
    var cs := nodes[t].elems;
    assert ElemsBelow(nodes[t], t);
    if ShapeOf(nodes, t).Some? {
      ShapeOfSound(nodes, t);
      var d := ShapeOf(nodes, t).value;
      ShapeOfComplete(nodes, cs[i], d[1..]);
      ShapeOfComplete(nodes, cs[j], d[1..]);
    }
  }

  /** When the check accepts `t`, it accepts every tensor it descended into. */
  lemma {:induction false} VisitedAccepted(nodes: seq<Node>, t: nat, k: nat)
    requires WellFormed(nodes) && t < |nodes| && ShapeOf(nodes, t).Some? && Visits(nodes, t, k)
    ensures k < |nodes| && ShapeOf(nodes, k).Some?
    decreases t
  {
    VisitsBelow(nodes, t, k);
    if k != t {
      var cs := nodes[t].elems;
      assert ElemsBelow(nodes[t], t);
      var i :| 0 <= i < |cs| && Visits(nodes, cs[i], k);
      VisitedAccepted(nodes, cs[i], k);
    }
  }

  /**
   * After a check that accepts `t`, every tensor it visited has its shape in
   * the memo, so later `shape()` queries on them answer without checking.
   */
  lemma AcceptedAllCached(nodes: seq<Node>, before: seq<Shape>, after: seq<Shape>, t: nat, k: nat)
    requires WellFormed(nodes) && t < |nodes| && CheckedMemo(nodes, before, after, t)
    requires ShapeOf(nodes, t).Some? && Visits(nodes, t, k)
    ensures k < |nodes| && ShapeOf(nodes, k).Some?
    ensures !after[k].Uninitialized() && after[k] == OfDims(ShapeOf(nodes, k).value)
  {
    VisitedAccepted(nodes, t, k);
  }

  /** Checking the same tensor twice leaves the memo as the first check left it. */
  lemma CheckIdempotent(nodes: seq<Node>, m0: seq<Shape>, m1: seq<Shape>, m2: seq<Shape>, t: nat)
    requires WellFormed(nodes) && t < |nodes|
    requires CheckedMemo(nodes, m0, m1, t) && CheckedMemo(nodes, m1, m2, t)
    ensures m2 == m1
  {
    forall k | 0 <= k < |nodes| ensures m2[k] == m1[k] {
    }
  }
}
