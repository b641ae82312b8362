/**
 * Lexical scopes as the external front end builds them: each scope has a kind,
 * a link to its enclosing scope (absent only at the root), the names declared
 * in it and the identifier references recorded in it, in source order. The
 * chain of `upper` links is a value, so it is finite and acyclic, and nothing
 * here can change a scope.
 */
module Scopes {
  import opened Wrappers
  import opened Syntax

  datatype ScopeKind = Global | Module | Function | Block | Class | OtherScope

  /**
   * One use of an identifier: its name, and the syntax around it
   * (`identifier.parent` and `identifier.parent.parent`).
   */
  datatype Reference = Reference(name: string, parent: Option<Node>, grandparent: Option<Node>)

  datatype Scope = Scope(
    kind: ScopeKind,
    upper: Option<Scope>,
    bindings: set<string>,
    references: seq<Reference>)

  /** Following `upper` from `s` meets a module scope. */
  predicate ReachesModule(s: Scope)
    decreases s
  {
    s.kind == Module || (s.upper.Some? && ReachesModule(s.upper.value))
  }

  /** `s` followed by all its enclosing scopes, innermost first. */
  function Chain(s: Scope): (c: seq<Scope>)
    ensures |c| >= 1 && c[0] == s
    decreases s
  {
    match s.upper
    case None => [s]
    case Some(u) => [s] + Chain(u)
  }

  /** The position in `Chain(s)` of the nearest module scope. */
  function ModuleDepth(s: Scope): (d: nat)
    requires ReachesModule(s)
    ensures d < |Chain(s)| && Chain(s)[d].kind == Module
    ensures forall i :: 0 <= i < d ==> Chain(s)[i].kind != Module
    decreases s
  {
    if s.kind == Module then 0 else 1 + ModuleDepth(s.upper.value)
  }

  /** Reaching a module scope means some scope on the chain is one. */
  lemma {:induction false} ReachesModuleIffChainHasModule(s: Scope)
    ensures ReachesModule(s) <==> exists i :: 0 <= i < |Chain(s)| && Chain(s)[i].kind == Module
    decreases s
  {
    if ReachesModule(s) {
      var d := ModuleDepth(s);
      assert Chain(s)[d].kind == Module;
    }
    if exists i :: 0 <= i < |Chain(s)| && Chain(s)[i].kind == Module {
      var i :| 0 <= i < |Chain(s)| && Chain(s)[i].kind == Module;
      if i > 0 {
        var u := s.upper.value;
        assert Chain(s) == [s] + Chain(u);
        assert 0 <= i - 1 < |Chain(u)| && Chain(u)[i - 1].kind == Module;
        ReachesModuleIffChainHasModule(u);
        assert ReachesModule(u);
      }
    }
  }
}
