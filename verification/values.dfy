/**
 * Values of tensor literals and the lazy, memoised shape check.
 *
 * The value objects of the program live in an arena: node `v` is either a
 * scalar leaf or a tensor listing its elements by index. Every element index
 * is smaller than the index of the tensor holding it, so the structure is
 * acyclic, while one node may still appear as several elements (several
 * pointers to the same object). Each node owns a memo field holding its
 * shape; a tensor's memo starts uninitialized and is written by the check.
 */
module Values {
  import opened Shapes

  datatype Option<T> = None | Some(value: T)

  /** What `shape()` yields: a shape, or the `std::logic_error` raised by `ASSERT`. */
  datatype Result<T> = Ok(value: T) | LogicError

  /** A scalar leaf (its double is not modelled) or a tensor of element indices. */
  datatype Node = Scalar | Tensor(elems: seq<nat>)

  /** A tensor has at least one element, and each refers to an earlier node. */
  predicate ElemsBelow(node: Node, v: nat) {
    node.Tensor? ==> |node.elems| > 0 && forall i :: 0 <= i < |node.elems| ==> node.elems[i] < v
  }

  predicate WellFormed(nodes: seq<Node>) {
    forall v :: 0 <= v < |nodes| ==> ElemsBelow(nodes[v], v)
  }

  /** The elements of tensor `t`: at least one, each an earlier node. */
  function Elems(nodes: seq<Node>, t: nat): (cs: seq<nat>)
    requires WellFormed(nodes) && t < |nodes| && nodes[t].Tensor?
    ensures cs == nodes[t].elems && |cs| > 0
    ensures forall i :: 0 <= i < |cs| ==> cs[i] < t
  {
    assert ElemsBelow(nodes[t], t);
    nodes[t].elems
  }

  /**
   * `f_next_dim`: 0 for a scalar, the number of elements for a tensor, so
   * that for a well-formed node a count of 0 identifies a scalar.
   */
  function NextDim(nodes: seq<Node>, c: nat): (r: nat)
    requires c < |nodes|
    ensures ElemsBelow(nodes[c], c) ==> (r == 0 <==> nodes[c].Scalar?)
  {
    if nodes[c].Scalar? then 0 else |nodes[c].elems|
  }

  /** All elements of tensor `t` have the same next-level count. */
  predicate Uniform(nodes: seq<Node>, t: nat)
    requires WellFormed(nodes) && t < |nodes| && nodes[t].Tensor?
  {
    var cs := nodes[t].elems;
    assert ElemsBelow(nodes[t], t);
    forall i :: 0 <= i < |cs| ==> NextDim(nodes, cs[i]) == NextDim(nodes, cs[0])
  }

  /** The check of tensor `t` goes on to check its elements one by one. */
  predicate Descends(nodes: seq<Node>, t: nat)
    requires WellFormed(nodes) && t < |nodes|
  {
    nodes[t].Tensor? && Uniform(nodes, t) &&
    (assert ElemsBelow(nodes[t], t); NextDim(nodes, nodes[t].elems[0]) != 0)
  }

  /**
   * The shape of node `v`, or None when the check rejects it: the rules of
   * `shape_checking` (src/Parser.cpp) written as a function of the arena.
   */
  function ShapeOf(nodes: seq<Node>, v: nat): (r: Option<seq<nat>>)
    requires WellFormed(nodes) && v < |nodes|
    ensures r.Some? ==> (r.value == [] <==> nodes[v].Scalar?)
    ensures r.Some? ==> forall i :: 0 <= i < |r.value| ==> r.value[i] > 0
    decreases v
  {
    match nodes[v]
    case Scalar => Some([])
    case Tensor(cs) =>
      assert ElemsBelow(nodes[v], v);
      if !Uniform(nodes, v) then None
      else if NextDim(nodes, cs[0]) == 0 then Some([|cs|])
      else if exists i :: 0 <= i < |cs| && ShapeOf(nodes, cs[i]).None? then None
      else if exists i :: 0 <= i < |cs| && ShapeOf(nodes, cs[i]) != ShapeOf(nodes, cs[0]) then None
      else Some([|cs|] + ShapeOf(nodes, cs[0]).value)
  }

  /**
   * Node `v` is a homogeneous (NumPy-style, non-ragged) array of shape `d`:
   * a scalar has shape [], and a tensor of n elements has shape [n] ++ e
   * when every one of its elements has shape e.
   */
  predicate Conforms(nodes: seq<Node>, v: nat, d: seq<nat>)
    requires WellFormed(nodes) && v < |nodes|
    decreases v
  {
    match nodes[v]
    case Scalar => d == []
    case Tensor(cs) =>
      assert ElemsBelow(nodes[v], v);
      |d| > 0 && d[0] == |cs| && forall i :: 0 <= i < |cs| ==> Conforms(nodes, cs[i], d[1..])
  }

  /** `shape_checking` on tensor `t` runs (recursively) on tensor `k`. */
  predicate Visits(nodes: seq<Node>, t: nat, k: nat)
    requires WellFormed(nodes) && t < |nodes|
    decreases t
  {
    nodes[t].Tensor? &&
    (k == t ||
     (Descends(nodes, t) &&
      (assert ElemsBelow(nodes[t], t);
       exists i :: 0 <= i < |nodes[t].elems| && Visits(nodes, nodes[t].elems[i], k))))
  }

  /** The memo value a successful check of `k` writes, or `before` if it fails. */
  function Cached(nodes: seq<Node>, before: Shape, k: nat): Shape
    requires WellFormed(nodes) && k < |nodes|
  {
    if ShapeOf(nodes, k).Some? then OfDims(ShapeOf(nodes, k).value) else before
  }

  /**
   * The memo after checking `t`: every node the check visited and accepted
   * holds its shape, every other entry is as before.
   */
  ghost predicate CheckedMemo(nodes: seq<Node>, before: seq<Shape>, after: seq<Shape>, t: nat)
    requires WellFormed(nodes) && t < |nodes|
  {
    |before| == |nodes| && |after| == |nodes| &&
    forall k :: 0 <= k < |nodes| ==>
      after[k] == if Visits(nodes, t, k) then Cached(nodes, before[k], k) else before[k]
  }

  /** The memo after checking the first `n` elements in `cs` one after the other. */
  ghost predicate PartlyChecked(nodes: seq<Node>, before: seq<Shape>, after: seq<Shape>, cs: seq<nat>, n: nat)
    requires WellFormed(nodes) && n <= |cs| && forall i :: 0 <= i < |cs| ==> cs[i] < |nodes|
  {
    |before| == |nodes| && |after| == |nodes| &&
    forall k :: 0 <= k < |nodes| ==>
      after[k] == if (exists j :: 0 <= j < n && Visits(nodes, cs[j], k)) then Cached(nodes, before[k], k) else before[k]
  }

  /** The check of `t` only ever reaches tensors at or below index `t`. */
  lemma {:induction false} VisitsBelow(nodes: seq<Node>, t: nat, k: nat)
    requires WellFormed(nodes) && t < |nodes| && Visits(nodes, t, k)
    ensures k <= t
    ensures nodes[k].Tensor?
    decreases t
  {
    if k != t {
      var cs := nodes[t].elems;
      assert ElemsBelow(nodes[t], t);
      var i :| 0 <= i < |cs| && Visits(nodes, cs[i], k);
      VisitsBelow(nodes, cs[i], k);
    }
  }

  /** Checking one more element of `cs` extends the set of visited nodes by its visits. */
  lemma PartlyCheckedStep(nodes: seq<Node>, before: seq<Shape>, mid: seq<Shape>, after: seq<Shape>, cs: seq<nat>, n: nat)
    requires WellFormed(nodes) && n < |cs| && forall i :: 0 <= i < |cs| ==> cs[i] < |nodes|
    requires PartlyChecked(nodes, before, mid, cs, n)
    requires CheckedMemo(nodes, mid, after, cs[n])
    ensures PartlyChecked(nodes, before, after, cs, n + 1)
  {
    forall k | 0 <= k < |nodes|
      ensures after[k] == if (exists j :: 0 <= j < n + 1 && Visits(nodes, cs[j], k)) then Cached(nodes, before[k], k) else before[k]
    {
      var earlier := exists j :: 0 <= j < n && Visits(nodes, cs[j], k);
      if Visits(nodes, cs[n], k) {
        assert mid[k] == if earlier then Cached(nodes, before[k], k) else before[k];
      } else {
        assert (exists j :: 0 <= j < n + 1 && Visits(nodes, cs[j], k)) == earlier by {
          if exists j :: 0 <= j < n + 1 && Visits(nodes, cs[j], k) {
            var j :| 0 <= j < n + 1 && Visits(nodes, cs[j], k);
            assert j < n;
          }
        }
      }
    }
  }

  /** A check that stops before the elements visits `t` alone. */
  lemma NoDescent(nodes: seq<Node>, before: seq<Shape>, t: nat)
    requires WellFormed(nodes) && t < |nodes| && nodes[t].Tensor? && !Descends(nodes, t)
    requires |before| == |nodes|
    ensures ShapeOf(nodes, t).None? ==> CheckedMemo(nodes, before, before, t)
    ensures ShapeOf(nodes, t).Some? ==> CheckedMemo(nodes, before, before[t := OfDims(ShapeOf(nodes, t).value)], t)
  {
    forall k | 0 <= k < |nodes| ensures Visits(nodes, t, k) <==> k == t {
    }
    if ShapeOf(nodes, t).None? {
      assert before[t := Cached(nodes, before[t], t)] == before;
    }
  }

  /**
   * Once every element of a descending check has been checked, the memo is the
   * one `CheckedMemo` describes except at `t` itself, which no element visits.
   */
  lemma FinishDescent(nodes: seq<Node>, before: seq<Shape>, after: seq<Shape>, t: nat)
    requires WellFormed(nodes) && t < |nodes| && Descends(nodes, t)
    requires PartlyChecked(nodes, before, after, Elems(nodes, t), |Elems(nodes, t)|)
    ensures ShapeOf(nodes, t).None? ==> CheckedMemo(nodes, before, after, t)
    ensures ShapeOf(nodes, t).Some? ==> CheckedMemo(nodes, before, after[t := OfDims(ShapeOf(nodes, t).value)], t)
  {
    var cs := nodes[t].elems;
    assert ElemsBelow(nodes[t], t);
    forall k | 0 <= k < |nodes|
      ensures Visits(nodes, t, k) <==> k == t || exists j :: 0 <= j < |cs| && Visits(nodes, cs[j], k)
    {
    }
    if exists j :: 0 <= j < |cs| && Visits(nodes, cs[j], t) {
      var j :| 0 <= j < |cs| && Visits(nodes, cs[j], t);
      VisitsBelow(nodes, cs[j], t);
      assert false;
    }
    if ShapeOf(nodes, t).None? {
      assert after[t := Cached(nodes, before[t], t)] == after;
    }
  }

  /**
   * After every element of a descending check has been checked and accepted,
   * each element's memo holds its shape: every element is a tensor the check
   * of that element visits first.
   */
  lemma ElementsCached(nodes: seq<Node>, before: seq<Shape>, after: seq<Shape>, t: nat)
    requires WellFormed(nodes) && t < |nodes| && Descends(nodes, t)
    requires PartlyChecked(nodes, before, after, Elems(nodes, t), |Elems(nodes, t)|)
    requires forall j :: 0 <= j < |nodes[t].elems| ==> ShapeOf(nodes, nodes[t].elems[j]).Some?
    ensures forall j :: 0 <= j < |nodes[t].elems| ==>
      after[nodes[t].elems[j]] == OfDims(ShapeOf(nodes, nodes[t].elems[j]).value)
  {
    var cs := nodes[t].elems;
    assert ElemsBelow(nodes[t], t);
    forall j | 0 <= j < |cs|
      ensures after[cs[j]] == OfDims(ShapeOf(nodes, cs[j]).value)
    {
      assert NextDim(nodes, cs[j]) == NextDim(nodes, cs[0]);
      assert Visits(nodes, cs[j], cs[j]);
    }
  }

  /** The check fails when an element's next-level count differs from the first one's. */
  lemma NextDimDiffers(nodes: seq<Node>, t: nat, i: nat)
    requires WellFormed(nodes) && t < |nodes| && nodes[t].Tensor? && i < |nodes[t].elems|
    requires NextDim(nodes, Elems(nodes, t)[i]) != NextDim(nodes, Elems(nodes, t)[0])
    ensures !Uniform(nodes, t) && ShapeOf(nodes, t).None?
  {
  }

  /** A descending check fails as soon as one element fails. */
  lemma ElementFails(nodes: seq<Node>, t: nat, i: nat)
    requires WellFormed(nodes) && t < |nodes| && Descends(nodes, t)
    requires i < |nodes[t].elems| && ShapeOf(nodes, Elems(nodes, t)[i]).None?
    ensures ShapeOf(nodes, t).None?
  {
  }

  /** A descending check fails when an element's shape differs from the first one's. */
  lemma ElementDiffers(nodes: seq<Node>, t: nat, i: nat)
    requires WellFormed(nodes) && t < |nodes| && Descends(nodes, t)
    requires i < |nodes[t].elems|
    requires ShapeOf(nodes, Elems(nodes, t)[i]) != ShapeOf(nodes, Elems(nodes, t)[0])
    ensures ShapeOf(nodes, t).None?
  {
  }

  /** A descending check succeeds when every element has the first element's shape. */
  lemma ElementsAgree(nodes: seq<Node>, t: nat, d: seq<nat>)
    requires WellFormed(nodes) && t < |nodes| && Descends(nodes, t)
    requires forall i :: 0 <= i < |Elems(nodes, t)| ==> ShapeOf(nodes, Elems(nodes, t)[i]) == Some(d)
    ensures ShapeOf(nodes, t) == Some([|nodes[t].elems|] + d)
  {
    var cs := Elems(nodes, t);
    assert ShapeOf(nodes, cs[0]) == Some(d);
  }
}
