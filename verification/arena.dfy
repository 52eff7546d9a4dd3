/**
 * The value objects themselves: `ScalaValue` and `TensorValue` with their
 * `_shape` memo, the recursive `shape_checking`, and `shape()`, which runs
 * the check on first query and afterwards answers from the memo.
 */
module ValueArena {
  import opened Shapes
  import opened Values

  class Arena {
    /** The value objects, addressed by index. */
    var nodes: seq<Node>
    /** The `_shape` field of each value object. */
    var memo: seq<Shape>

    ghost predicate Valid()
      reads this
    {
      WellFormed(nodes) && |memo| == |nodes| &&
      forall v :: 0 <= v < |nodes| ==> memo[v].Wf() && (nodes[v].Scalar? ==> memo[v] == ScalarShape)
    }

    constructor ()
      ensures Valid() && nodes == [] && memo == []
    {
      nodes := [];
      memo := [];
    }

    /** `is_scala()`: true for a scalar value, whose next-level count is 0. */
    function IsScala(v: nat): (r: bool)
      reads this
      requires v < |nodes|
      ensures r <==> nodes[v] == Scalar
      ensures r ==> NextDim(nodes, v) == 0
    {
      nodes[v].Scalar?
    }

    /** `is_tensor()`: every value is exactly one of a scalar and a tensor. */
    function IsTensor(v: nat): (r: bool)
      reads this
      requires v < |nodes|
      ensures r <==> !IsScala(v)
    {
      nodes[v].Tensor?
    }

    /** `new ScalaValue(...)`: a scalar starts with the rank-0 shape. */
    method AddScalar() returns (v: nat)
      requires Valid()
      modifies this
      ensures Valid()
      ensures v == |old(nodes)| && nodes == old(nodes) + [Scalar] && memo == old(memo) + [ScalarShape]
      ensures IsScala(v) && !IsTensor(v)
    {
      v := |nodes|;
      nodes := nodes + [Scalar];
      memo := memo + [ScalarShape];
    }

    /**
     * `new TensorValue(dim, vals)`: the elements are values created earlier and
     * there is at least one of them; the memo starts uninitialized.
     */
    method AddTensor(elems: seq<nat>) returns (v: nat)
      requires Valid()
      requires |elems| > 0 && forall i :: 0 <= i < |elems| ==> elems[i] < |nodes|
      modifies this
      ensures Valid()
      ensures v == |old(nodes)| && nodes == old(nodes) + [Tensor(elems)] && memo == old(memo) + [Unset()]
      ensures IsTensor(v) && !IsScala(v) && memo[v].Uninitialized()
    {
      v := |nodes|;
      nodes := nodes + [Tensor(elems)];
      memo := memo + [Unset()];
      assert ElemsBelow(nodes[v], v);
    }

    /** `TensorValue::set_shape`: overwrites the memo of one tensor. */
    method SetShape(v: nat, s: Shape)
      requires Valid() && v < |nodes| && nodes[v].Tensor? && s.Wf()
      modifies this
      ensures Valid() && nodes == old(nodes) && memo == old(memo)[v := s]
    {
      memo := memo[v := s];
    }

    /**
     * `shape_checking`: accepts tensor `t` exactly when the arena gives it a
     * shape, and leaves the memo of every tensor it visited and accepted
     * holding that tensor's shape; no other memo entry changes.
     */
    method Check(t: nat) returns (ok: bool)
      requires Valid() && t < |nodes| && nodes[t].Tensor?
      modifies this
      ensures Valid() && nodes == old(nodes)
      ensures ok <==> ShapeOf(nodes, t).Some?
      ensures CheckedMemo(nodes, old(memo), memo, t)
      decreases t, 3
    {
      var uniform, nextDim := NextDims(t);
      if !uniform {
        NoDescent(nodes, memo, t);
        return false;
      }
      // all elements are scalars: a vector
      if nextDim == 0 {
        NoDescent(nodes, memo, t);
        memo := memo[t := OfDims([|nodes[t].elems|])];
        return true;
      }
      // all elements are tensors: check every one, then compare their shapes
      ok := Descend(t);
    }

    /**
     * The first loop of `shape_checking`: do all elements of tensor `t` have
     * the same next-level count, and which one is it.
     */
    method NextDims(t: nat) returns (uniform: bool, nextDim: nat)
      requires Valid() && t < |nodes| && nodes[t].Tensor?
      ensures uniform <==> Uniform(nodes, t)
      ensures uniform ==> nextDim == NextDim(nodes, Elems(nodes, t)[0])
    {
      var cs := nodes[t].elems;
      assert ElemsBelow(nodes[t], t);
      nextDim := NextDim(nodes, cs[0]);
      var i := 1;
      while i < |cs|
        invariant 1 <= i <= |cs|
        invariant forall j :: 0 <= j < i ==> NextDim(nodes, cs[j]) == nextDim
      {
        if nextDim != NextDim(nodes, cs[i]) {
          return false, nextDim;
        }
        i := i + 1;
      }
      uniform := true;
    }

    /**
     * `shape_checking` on a tensor whose elements are tensors of one size:
     * checks every element, then compares their shapes.
     */
    method Descend(t: nat) returns (ok: bool)
      requires Valid() && t < |nodes| && Descends(nodes, t)
      modifies this
      ensures Valid() && nodes == old(nodes)
      ensures ok <==> ShapeOf(nodes, t).Some?
      ensures CheckedMemo(nodes, old(memo), memo, t)
      decreases t, 2
    {
      var cs := nodes[t].elems;
      assert ElemsBelow(nodes[t], t);
      var allOk := CheckElements(t);
      FinishDescent(nodes, old(memo), memo, t);
      if !allOk {
        ghost var j :| 0 <= j < |cs| && ShapeOf(nodes, cs[j]).None?;
        ElementFails(nodes, t, j);
        return false;
      }
      ElementsCached(nodes, old(memo), memo, t);
      var same, s0 := CompareElements(t);
      if !same {
        return false;
      }
      memo := memo[t := OfDims([|cs|] + s0.dims)];
      return true;
    }

    /**
     * The second loop of `shape_checking`: runs the check on every element of
     * tensor `t`, carrying on after a failure (`&=` does not short-circuit).
     */
    method CheckElements(t: nat) returns (allOk: bool)
      requires Valid() && t < |nodes| && Descends(nodes, t)
      modifies this
      ensures Valid() && nodes == old(nodes)
      ensures allOk <==> forall j :: 0 <= j < |nodes[t].elems| ==> ShapeOf(nodes, nodes[t].elems[j]).Some?
      ensures PartlyChecked(nodes, old(memo), memo, nodes[t].elems, |nodes[t].elems|)
      decreases t, 1
    {
      var cs := nodes[t].elems;
      ghost var ns := nodes;
      assert ElemsBelow(ns[t], t);
      allOk := true;
      var i := 0;
      while i < |cs|
        invariant 0 <= i <= |cs|
        invariant Valid() && nodes == ns
        invariant allOk <==> forall j :: 0 <= j < i ==> ShapeOf(ns, cs[j]).Some?
        invariant PartlyChecked(ns, old(memo), memo, cs, i)
      {
        ghost var mid := memo;
        var r := Check(cs[i]);
        PartlyCheckedStep(ns, old(memo), mid, memo, cs, i);
        allOk := allOk && r;
        i := i + 1;
      }
    }

    /**
     * The third loop of `shape_checking`: once every element of tensor `t` has
     * its shape cached, compares each element's `shape()` with the first one's.
     * When they agree, `t` has the shape `[element count] ++ s0.dims`.
     */
    method CompareElements(t: nat) returns (same: bool, s0: Shape)
      requires Valid() && t < |nodes| && Descends(nodes, t)
      requires forall j :: 0 <= j < |nodes[t].elems| ==>
        ShapeOf(nodes, nodes[t].elems[j]).Some? &&
        memo[nodes[t].elems[j]] == OfDims(ShapeOf(nodes, nodes[t].elems[j]).value)
      modifies this
      ensures Valid() && nodes == old(nodes) && memo == old(memo)
      ensures same <==> ShapeOf(nodes, t).Some?
      ensures same ==> ShapeOf(nodes, t).value == [|nodes[t].elems|] + s0.dims
      decreases t, 1
    {
      ghost var ns := nodes;
      var cs := nodes[t].elems;
      assert ElemsBelow(ns[t], t);
      var first := GetShape(cs[0]);
      s0 := first.value;
      ghost var d0 := ShapeOf(ns, cs[0]);
      var i := 1;
      while i < |cs|
        invariant 1 <= i <= |cs|
        invariant Valid() && nodes == ns && memo == old(memo)
        invariant forall j :: 0 <= j < i ==> ShapeOf(ns, cs[j]) == d0
      {
        var si := GetShape(cs[i]);
        var differ := NotEqual(s0, si.value);
        if differ {
          ElementDiffers(ns, t, i);
          return false, s0;
        }
        i := i + 1;
      }
      ElementsAgree(ns, t, d0.value);
      same := true;
    }

    /**
     * `Value::shape()`. A scalar answers its rank-0 shape. A tensor whose memo
     * is set answers it unchanged without checking anything; otherwise it is
     * checked first, and if the check leaves the memo unset the call raises.
     */
    method GetShape(v: nat) returns (r: Result<Shape>)
      requires Valid() && v < |nodes|
      modifies this
      ensures Valid() && nodes == old(nodes)
      ensures !old(memo[v]).Uninitialized() ==> memo == old(memo) && r == Ok(old(memo[v]))
      ensures old(memo[v]).Uninitialized() ==>
        CheckedMemo(nodes, old(memo), memo, v) &&
        r == if ShapeOf(nodes, v).Some? then Ok(OfDims(ShapeOf(nodes, v).value)) else LogicError
      decreases v, 4
    {
      if nodes[v].Scalar? {
        // ScalaValue::shape: the memo is always initialized, and is set to Shape(0) again
        memo := memo[v := ScalarShape];
        return Ok(ScalarShape);
      }
      if memo[v].Uninitialized() {
        var _ := Check(v);
        assert Visits(nodes, v, v);
      }
      if memo[v].Uninitialized() {
        return LogicError;
      }
      return Ok(memo[v]);
    }
  }

  /**
   * The `ShapeChecking` unit test: a 2-vector and a 3-vector of the same scalar
   * side by side are ragged, so `shape()` raises; the 2-vector twice over has
   * shape 2x2.
   */
  method ShapeCheckingScenario() returns (ragged: Result<Shape>, square: Result<Shape>)
    ensures ragged == LogicError
    ensures square == Ok(Shape(2, [2, 2]))
  {
    var a := new Arena();
    var sv1 := a.AddScalar();
    var tv1 := a.AddTensor([sv1, sv1]);
    var tv2 := a.AddTensor([sv1, sv1, sv1]);
    var tv3 := a.AddTensor([tv1, tv2]);
    assert a.nodes == [Scalar, Tensor([0, 0]), Tensor([0, 0, 0]), Tensor([1, 2])];
    NextDimDiffers(a.nodes, tv3, 1);
    ragged := a.GetShape(tv3);
    var tv4 := a.AddTensor([tv1, tv1]);
    assert ShapeOf(a.nodes, tv1) == Some([2]);
    ElementsAgree(a.nodes, tv4, [2]);
    assert [|a.nodes[tv4].elems|] + [2] == [2, 2];
    square := a.GetShape(tv4);
  }

  /**
   * Asking a value for its shape twice gives the same answer: the first call
   * caches an accepted shape, and a rejected tensor stays unset and is
   * rejected again.
   */
  method ShapeQueriedTwice(a: Arena, v: nat) returns (first: Result<Shape>, second: Result<Shape>)
    requires a.Valid() && v < |a.nodes|
    modifies a
    ensures first == second
  {
    first := a.GetShape(v);
    assert a.nodes[v].Tensor? ==> Visits(a.nodes, v, v);
    second := a.GetShape(v);
  }

  /**
   * A check that fails still leaves its accepted sub-tensors cached: the
   * parent of a 2-vector and of a tensor mixing a vector with a scalar is
   * rejected, the 2-vector's memo now holds its shape, the other's stays unset.
   */
  method PartialCacheScenario() returns (parent: Result<Shape>, good: Shape, bad: Shape)
    ensures parent == LogicError
    ensures good == Shape(1, [2])
    ensures bad.Uninitialized()
  {
    var a := new Arena();
    var s := a.AddScalar();
    var v := a.AddTensor([s, s]);
    var mixed := a.AddTensor([v, s]);
    var p := a.AddTensor([v, mixed]);
    assert a.nodes == [Scalar, Tensor([0, 0]), Tensor([1, 0]), Tensor([1, 2])];
    NextDimDiffers(a.nodes, mixed, 1);
    assert Descends(a.nodes, p);
    ElementFails(a.nodes, p, 1);
    assert Visits(a.nodes, v, v) && Visits(a.nodes, p, v);
    parent := a.GetShape(p);
    good := a.memo[v];
    bad := a.memo[mixed];
  }
}
