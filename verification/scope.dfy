/**
 * Lexical scopes: the stack of names of the enclosing definitions, and the
 * ordering in which a scope lies within another when the other's names are
 * a prefix of its own.
 */
module Scopes {

  /** `b` is a prefix of `a`: a scope named `a` lies within one named `b`. */
  predicate Within(a: seq<string>, b: seq<string>) {
    |b| <= |a| && a[..|b|] == b
  }

  class Scope {
    /** `scope_names`, outermost first. */
    var names: seq<string>

    constructor ()
      ensures names == []
    {
      names := [];
    }

    /** `push`: enters the scope named `name`. */
    method Push(name: string)
      modifies this
      ensures names == old(names) + [name]
      ensures Within(names, old(names))
    {
      names := names + [name];
    }

    /** `pop`: leaves the innermost scope; there must be one. */
    method Pop()
      requires |names| > 0
      modifies this
      ensures names == old(names)[..|old(names)| - 1]
      ensures Within(old(names), names)
    {
      names := names[..|names| - 1];
    }

    /**
     * `operator<=`: false when this scope has fewer names than `other`,
     * otherwise compares `other`'s names with this scope's one by one.
     */
    method LessEq(other: Scope) returns (r: bool)
      ensures r <==> Within(names, other.names)
    {
      if |names| < |other.names| {
        return false;
      }
      var i := 0;
      while i < |other.names|
        invariant 0 <= i <= |other.names|
        invariant forall j :: 0 <= j < i ==> names[j] == other.names[j]
      {
        if names[i] != other.names[i] {
          return false;
        }
        i := i + 1;
      }
      return true;
    }
  }

  /** Every scope lies within itself. */
  lemma WithinReflexive(a: seq<string>)
    ensures Within(a, a)
  {
  }

  /** A scope with fewer names than another never lies within it. */
  lemma FewerNamesNotWithin(a: seq<string>, b: seq<string>)
    requires |a| < |b|
    ensures !Within(a, b)
  {
  }

  /** Lying within is transitive. */
  lemma WithinTransitive(a: seq<string>, b: seq<string>, c: seq<string>)
    requires Within(a, b) && Within(b, c)
    ensures Within(a, c)
  {
    assert a[..|c|] == a[..|b|][..|c|];
  }

  /** Two scopes that lie within each other are the same scope. */
  lemma WithinAntisymmetric(a: seq<string>, b: seq<string>)
    requires Within(a, b) && Within(b, a)
    ensures a == b
  {
  }

  /** Popping right after pushing restores the scope. */
  method PushThenPop(s: Scope, name: string)
    modifies s
    ensures s.names == old(s.names)
  {
    s.Push(name);
    s.Pop();
  }

  /** Scopes entered one inside the other lie within each other in that order. */
  method NestedScopes() returns (outer: bool, inner: bool)
    ensures !outer && inner
  {
    var f := new Scope();
    f.Push("main");
    var g := new Scope();
    g.Push("main");
    g.Push("loop");
    outer := f.LessEq(g);
    inner := g.LessEq(f);
  }
}
