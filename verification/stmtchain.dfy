/**
 * Statement chains: a singly linked list of statements in which every node
 * also points at the chain's first node (its header), and the compound
 * statement that walks such a chain with a cursor.
 */
module StmtChains {

  class StmtChain<S> {
    var stmt: S
    /** The first node of the chain this node belongs to. */
    var header: StmtChain?<S>
    var next: StmtChain?<S>

    /** `StmtChain(stmt)`: a one-node chain, which is its own header. */
    constructor (stmt: S)
      ensures this.stmt == stmt && header == this && next == null
    {
      this.stmt := stmt;
      next := null;
      new;
      header := this;
    }

    /**
     * `add`: appends a new node holding `stmt` right after this one, sharing
     * this node's header, and returns it. Whatever followed this node before
     * is no longer linked from it.
     */
    method Add(stmt: S) returns (n: StmtChain<S>)
      modifies this
      ensures fresh(n) && n.stmt == stmt && n.header == header && n.next == null
      ensures next == n && this.stmt == old(this.stmt) && header == old(header)
    {
      n := new StmtChain(stmt);
      n.header := header;
      next := n;
    }
  }

  /**
   * `nodes` is a whole chain in order: distinct nodes, each linked to the
   * following one, the last one to nothing, and all sharing the first node
   * as their header.
   */
  ghost predicate IsChain<S>(nodes: seq<StmtChain<S>>)
    reads nodes
  {
    |nodes| > 0 &&
    (forall i :: 0 <= i < |nodes| ==> nodes[i].header == nodes[0]) &&
    (forall i :: 0 <= i < |nodes| - 1 ==> nodes[i].next == nodes[i + 1]) &&
    nodes[|nodes| - 1].next == null &&
    (forall i, j :: 0 <= i < j < |nodes| ==> nodes[i] != nodes[j])
  }

  /** A fresh node is a chain on its own. */
  method NewChain<S>(stmt: S) returns (head: StmtChain<S>, ghost nodes: seq<StmtChain<S>>)
    ensures fresh(head) && nodes == [head] && IsChain(nodes) && head.stmt == stmt
  {
    head := new StmtChain(stmt);
    nodes := [head];
  }

  /**
   * `add` on the last node of a chain yields a longer chain whose new last
   * node holds `stmt` and has the chain's first node as its header.
   */
  method Append<S>(last: StmtChain<S>, ghost nodes: seq<StmtChain<S>>, stmt: S)
    returns (n: StmtChain<S>, ghost longer: seq<StmtChain<S>>)
    requires IsChain(nodes) && last == nodes[|nodes| - 1]
    modifies last
    ensures longer == nodes + [n] && IsChain(longer)
    ensures n.stmt == stmt && n.header == nodes[0]
    ensures forall i :: 0 <= i < |nodes| ==> nodes[i].stmt == old(nodes[i].stmt)
  {
    n := last.Add(stmt);
    longer := nodes + [n];
  }

  /** A chain of the statements `stmts`, built by `add` from a head node. */
  method BuildChain<S>(stmts: seq<S>) returns (head: StmtChain<S>, ghost nodes: seq<StmtChain<S>>)
    requires |stmts| > 0
    ensures head.stmt == stmts[0] && head.header == head && (|stmts| == 1 <==> head.next == null)
    ensures IsChain(nodes) && head == nodes[0] && |nodes| == |stmts|
    ensures forall i :: 0 <= i < |stmts| ==> nodes[i].stmt == stmts[i] && nodes[i].header == head
  {
    head, nodes := NewChain(stmts[0]);
    var last := head;
    var i := 1;
    while i < |stmts|
      invariant 1 <= i <= |stmts| && |nodes| == i && head == nodes[0] && last == nodes[i - 1]
      invariant IsChain(nodes)
      invariant forall k :: 0 <= k < i ==> nodes[k].stmt == stmts[k]
    {
      last, nodes := Append(last, nodes, stmts[i]);
      i := i + 1;
    }
    assert |nodes| > 1 ==> head.next == nodes[1];
  }

  /** The statement of a function or loop body: a chain walked with a cursor. */
  class CompoundStmt<S> {
    /** The cursor: the chain node of the current statement. */
    var chain: StmtChain<S>
    /** The chain, and the cursor's index in it. */
    ghost var nodes: seq<StmtChain<S>>
    ghost var pos: nat

    ghost predicate Valid()
      reads this, nodes
    {
      IsChain(nodes) && pos < |nodes| && chain == nodes[pos]
    }

    /** `CompoundStmt(scope, chain)`: the cursor starts at the given node of a chain. */
    constructor (chain: StmtChain<S>, ghost nodes: seq<StmtChain<S>>, ghost pos: nat)
      requires IsChain(nodes) && pos < |nodes| && chain == nodes[pos]
      ensures Valid() && this.nodes == nodes && this.pos == pos
    {
      this.chain := chain;
      this.nodes := nodes;
      this.pos := pos;
    }

    /** `header()`: the first statement of the chain, wherever the cursor is. */
    method Header() returns (s: S)
      requires Valid()
      ensures s == nodes[0].stmt
    {
      s := chain.header.stmt;
    }

    /** `cur()`: the statement under the cursor. */
    method Cur() returns (s: S)
      requires Valid()
      ensures s == nodes[pos].stmt
    {
      s := chain.stmt;
    }

    /** `next()`: moves the cursor to the following statement, which must exist, and answers it. */
    method Next() returns (s: S)
      requires Valid() && pos + 1 < |nodes|
      modifies this
      ensures Valid() && nodes == old(nodes) && pos == old(pos) + 1
      ensures s == nodes[pos].stmt
    {
      assert nodes[pos].next == nodes[pos + 1];
      chain := chain.next;
      pos := pos + 1;
      s := chain.stmt;
    }

    /** `isTail()`: the cursor is on the last statement. */
    method IsTail() returns (b: bool)
      requires Valid()
      ensures b <==> pos == |nodes| - 1
    {
      if pos < |nodes| - 1 {
        assert nodes[pos].next == nodes[pos + 1];
      }
      b := chain.next == null;
    }

    /** `isHeader()`: the cursor is on the first statement. */
    method IsHeader() returns (b: bool)
      requires Valid()
      ensures b <==> pos == 0
    {
      b := chain.header == chain;
    }
  }

  /** A second `add` on the same node replaces its successor. */
  method AddTwice<S>(a: S, b: S, c: S) returns (first: StmtChain<S>, second: StmtChain<S>, head: StmtChain<S>)
    ensures head.next == second && first != second && second.header == head && first.header == head
  {
    head := new StmtChain(a);
    first := head.Add(b);
    second := head.Add(c);
  }

  /** Walking a chain of three statements from its head visits them in order and stops at the tail. */
  method WalkThree<S>(a: S, b: S, c: S) returns (h: S, x: S, y: S, tail: bool, atHead: bool)
    ensures h == a && x == b && y == c && tail && !atHead
  {
    var head, nodes := BuildChain([a, b, c]);
    var cs := new CompoundStmt(head, nodes, 0);
    x := cs.Next();
    y := cs.Next();
    h := cs.Header();
    tail := cs.IsTail();
    atHead := cs.IsHeader();
  }
}
