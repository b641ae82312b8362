/**
 * The helper that finds the module scope: from the scope of the node being
 * visited, follow `upper` until a scope of kind `Module` is met.
 */
module GetScopeModule {
  import opened Scopes

  /**
   * The nearest module scope on the chain from `s`: a module scope, the
   * first one met while ascending, and `s` itself when `s` is a module scope.
   */
  function ModuleScope(s: Scope): (m: Scope)
    requires ReachesModule(s)
    ensures m.kind == Module
    ensures m == Chain(s)[ModuleDepth(s)]
    ensures s.kind == Module ==> m == s
    decreases s
  {
    if s.kind == Module then s else ModuleScope(s.upper.value)
  }

  /**
   * The walk itself: reassigns a local cursor until its kind is `Module`.
   * The caller must start on a chain that reaches a module scope; otherwise
   * the cursor becomes null and the source throws on `scope.type`. Scopes are
   * values here, so the walk cannot change any of them.
   */
  method GetModuleScope(current: Scope) returns (scope: Scope)
    requires ReachesModule(current)
    ensures scope.kind == Module
    ensures scope == ModuleScope(current)
  {
    scope := current;
    while scope.kind != Module
      invariant ReachesModule(scope)
      invariant ModuleScope(scope) == ModuleScope(current)
      decreases scope
    {
      scope := scope.upper.value;
    }
  }
}
