/**
 * What the rule promises, proved about the model in
 * constant_case_translation_keys.dfy: which reference the hook search
 * finds, exactly when a call is reported, and what the suggested fix text is.
 */
module RuleProperties {
  import opened Wrappers
  import opened Syntax
  import opened Scopes
  import opened Segments
  import opened GetScopeModule
  import opened ConstantCaseTranslationKeys

  // ---------------------------------------------------------------------------
  // The hook search

  /**
   * The search finds nothing exactly when no scope below the nearest module
   * scope has a reference named `hookName`; when it finds a reference, that
   * reference is the nearest one (`NearestAt`). The module scope's own
   * references are never candidates.
   */
  lemma {:induction false} HookReferenceIsNearest(scope: Scope, hookName: string)
    requires ReachesModule(scope)
    ensures HookReference(scope, hookName).None? <==>
      forall i, j :: 0 <= i < ModuleDepth(scope) && 0 <= j < |Chain(scope)[i].references| ==>
        Chain(scope)[i].references[j].name != hookName
    ensures HookReference(scope, hookName).Some? ==>
      exists i: nat, j: nat :: NearestAt(scope, hookName, i, j) &&
        HookReference(scope, hookName) == Some(Chain(scope)[i].references[j])
    decreases scope
  {
    if scope.kind != Module {
      var u := scope.upper.value;
      assert Chain(scope) == [scope] + Chain(u);
      assert Chain(scope)[0] == scope;
      match FindReference(scope.references, hookName)
      case Some(k) =>
        assert NearestAt(scope, hookName, 0, k);
      case None =>
        HookReferenceIsNearest(u, hookName);
        assert forall i :: 1 <= i < |Chain(scope)| ==> Chain(scope)[i] == Chain(u)[i - 1];
        if HookReference(u, hookName).Some? {
          var i: nat, j: nat :| NearestAt(u, hookName, i, j) &&
            HookReference(u, hookName) == Some(Chain(u)[i].references[j]);
          assert Chain(scope)[i + 1] == Chain(u)[i];
          assert NearestAt(scope, hookName, i + 1, j);
        } else {
          forall i, j | 0 <= i < ModuleDepth(scope) && 0 <= j < |Chain(scope)[i].references|
            ensures Chain(scope)[i].references[j].name != hookName
          {
            if i > 0 {
              assert Chain(scope)[i] == Chain(u)[i - 1];
            }
          }
        }
    }
  }

  /** Conversely, the nearest reference is the one the search returns. */
  lemma {:induction false} NearestAtIsHookReference(scope: Scope, hookName: string, i: nat, j: nat)
    requires ReachesModule(scope)
    requires NearestAt(scope, hookName, i, j)
    ensures HookReference(scope, hookName) == Some(Chain(scope)[i].references[j])
    decreases scope
  {
    var u := scope.upper.value;
    assert Chain(scope) == [scope] + Chain(u);
    if i == 0 {
      var k := FindReference(scope.references, hookName);
      assert k.Some?;
      assert k.value == j;
    } else {
      assert forall j' :: 0 <= j' < |scope.references| ==> Chain(scope)[0].references[j'].name != hookName;
      assert FindReference(scope.references, hookName).None?;
      assert Chain(scope)[i] == Chain(u)[i - 1];
      forall i', j' | 0 <= i' < i - 1 && 0 <= j' < |Chain(u)[i'].references|
        ensures Chain(u)[i'].references[j'].name != hookName
      {
        assert Chain(u)[i'] == Chain(scope)[i' + 1];
      }
      assert NearestAt(u, hookName, i - 1, j);
      NearestAtIsHookReference(u, hookName, i - 1, j);
    }
  }

  // ---------------------------------------------------------------------------
  // Keys and the suggested fix

  /** A key without `.` is accepted exactly when it is its own constant-case form. */
  lemma SingleSegmentKey(key: string, constantCase: string -> string)
    requires '.' !in key
    ensures IsConstantCase(Some(key), constantCase) <==> constantCase(key) == key
  {
    SplitWithoutSeparator(key, '.');
    assert Split(key, '.')[0] == key;
  }

  /**
   * When the transform emits no `.`, the fix text has exactly the key's
   * segments, each constant-cased; in particular as many segments as the key.
   */
  lemma SuggestionSegments(key: string, constantCase: string -> string)
    requires EmitsNoDot(constantCase)
    ensures Split(Suggestion(key, constantCase), '.') == MapSegments(Split(key, '.'), constantCase)
    ensures |Split(Suggestion(key, constantCase), '.')| == |Split(key, '.')|
  {
    var fixed := MapSegments(Split(key, '.'), constantCase);
    forall i | 0 <= i < |fixed| ensures '.' !in fixed[i] {
      assert fixed[i] == constantCase(Split(key, '.')[i]);
    }
    SplitJoin(fixed, '.');
  }

  /** With an idempotent transform that emits no `.`, the fix text is accepted. */
  lemma SuggestionIsConstantCase(key: string, constantCase: string -> string)
    requires EmitsNoDot(constantCase)
    requires Idempotent(constantCase)
    ensures IsConstantCase(Some(Suggestion(key, constantCase)), constantCase)
  {
    SuggestionSegments(key, constantCase);
    var parts := Split(key, '.');
    var fixed := MapSegments(parts, constantCase);
    forall i | 0 <= i < |fixed| ensures constantCase(fixed[i]) == fixed[i] {
      assert fixed[i] == constantCase(parts[i]);
    }
  }

  /**
   * The fix leaves an accepted key unchanged; when the transform emits no
   * `.`, a key the fix leaves unchanged is accepted.
   */
  lemma AcceptedKeysAreFixedPoints(key: string, constantCase: string -> string)
    ensures IsConstantCase(Some(key), constantCase) ==> Suggestion(key, constantCase) == key
    ensures EmitsNoDot(constantCase) && Suggestion(key, constantCase) == key ==>
      IsConstantCase(Some(key), constantCase)
  {
    var parts := Split(key, '.');
    if IsConstantCase(Some(key), constantCase) {
      assert MapSegments(parts, constantCase) == parts;
      JoinSplit(key, '.');
    }
    if EmitsNoDot(constantCase) && Suggestion(key, constantCase) == key {
      SuggestionSegments(key, constantCase);
      assert MapSegments(parts, constantCase) == parts;
      forall i | 0 <= i < |parts| ensures constantCase(parts[i]) == parts[i] {
        assert MapSegments(parts, constantCase)[i] == constantCase(parts[i]);
      }
    }
  }

  // ---------------------------------------------------------------------------
  // When a call is reported

  /**
   * The call's callee goes through the binding of the hook's result: for an
   * object pattern, the callee is an identifier named like the key (not the
   * alias) of one of the pattern's properties; for a plain identifier `ut`,
   * the callee is a member access `ut.<anything>`.
   */
  ghost predicate Correlates(callee: Node, bindingTarget: Option<Node>)
  {
    match bindingTarget
    case Some(ObjectPattern(properties)) =>
      callee.Identifier? &&
      exists k :: 0 <= k < |properties| && properties[k].Property? && properties[k].key == Identifier(callee.name)
    case Some(Identifier(bound)) =>
      callee.MemberExpression? && callee.obj == Identifier(bound)
    case _ => false
  }

  /**
   * The call under test is derived from the hook: the hook is declared in the
   * module scope, and the nearest reference to it sits directly under a call
   * expression whose declarator binds a target the callee goes through.
   */
  ghost predicate DerivedFromHook(node: Node, current: Scope, hookName: string)
    requires node.CallExpression?
    requires ReachesModule(current)
  {
    && hookName in ModuleScope(current).bindings
    && exists i: nat, j: nat :: NearestAt(current, hookName, i, j)
         && IsCallExpression(Chain(current)[i].references[j].parent)
         && Correlates(node.callee, IdOf(Chain(current)[i].references[j].grandparent))
  }

  /** The guards of the two binding branches are exactly `Correlates`. */
  lemma CorrelatesIffGuards(callee: Node, bindingTarget: Option<Node>)
    ensures Correlates(callee, bindingTarget) <==>
      match bindingTarget
      case Some(ObjectPattern(properties)) => |properties| > 0 && FindProperty(properties, CalleeName(callee)).Some?
      case Some(Identifier(bound)) => callee.MemberExpression? && callee.obj.Identifier? && callee.obj.name == bound
      case _ => false
  {
    if bindingTarget.Some? && bindingTarget.value.ObjectPattern? {
      var properties := bindingTarget.value.properties;
      var found := FindProperty(properties, CalleeName(callee));
      if found.Some? {
        assert properties[found.value].key == Identifier(callee.name);
      }
      if Correlates(callee, bindingTarget) {
        var k :| 0 <= k < |properties| && properties[k].Property? && properties[k].key == Identifier(callee.name);
        assert KeyNamed(properties[k], CalleeName(callee));
      }
    }
  }

  /** Whether the visitor goes on to read the key, stated with the search's result. */
  ghost predicate Applies(node: Node, current: Scope, hookName: string)
    requires node.CallExpression?
    requires ReachesModule(current)
  {
    && hookName in ModuleScope(current).bindings
    && HookReference(current, hookName).Some?
    && IsCallExpression(HookReference(current, hookName).value.parent)
    && Correlates(node.callee, IdOf(HookReference(current, hookName).value.grandparent))
  }

  /** The guard chain of the visitor either stops with no report or validates the key. */
  lemma CheckCallGuards(node: Node, current: Scope, hookName: string, constantCase: string -> string)
    requires node.CallExpression?
    requires ReachesModule(current)
    ensures CheckCall(node, current, hookName, constantCase) ==
      if Applies(node, current, hookName) then ValidateKey(node.arguments, constantCase) else NoReport
  {
    var h := HookReference(current, hookName);
    if h.Some? {
      CorrelatesIffGuards(node.callee, IdOf(h.value.grandparent));
    }
  }

  /** `Applies` and the declarative `DerivedFromHook` agree. */
  lemma DerivedFromHookIffApplies(node: Node, current: Scope, hookName: string)
    requires node.CallExpression?
    requires ReachesModule(current)
    ensures DerivedFromHook(node, current, hookName) <==> Applies(node, current, hookName)
  {
    var h := HookReference(current, hookName);
    if DerivedFromHook(node, current, hookName) {
      var i: nat, j: nat :| NearestAt(current, hookName, i, j)
        && IsCallExpression(Chain(current)[i].references[j].parent)
        && Correlates(node.callee, IdOf(Chain(current)[i].references[j].grandparent));
      NearestAtIsHookReference(current, hookName, i, j);
    }
    if Applies(node, current, hookName) {
      HookReferenceIsNearest(current, hookName);
      var i: nat, j: nat :| NearestAt(current, hookName, i, j) && h == Some(Chain(current)[i].references[j]);
      assert IsCallExpression(Chain(current)[i].references[j].parent);
    }
  }

  /**
   * The visitor reports exactly the calls derived from the hook whose first
   * argument is a string literal with a segment that is not constant case;
   * the report sits on that argument, carries the rule's message and
   * suggests the segment-wise constant-cased key. It throws exactly on a
   * derived call without arguments, and does nothing otherwise.
   */
  lemma CheckCallOutcome(node: Node, current: Scope, hookName: string, constantCase: string -> string)
    requires node.CallExpression?
    requires ReachesModule(current)
    ensures CheckCall(node, current, hookName, constantCase).Report? <==>
      && DerivedFromHook(node, current, hookName)
      && |node.arguments| > 0
      && !IsConstantCase(StringValueOf(node.arguments[0]), constantCase)
    ensures CheckCall(node, current, hookName, constantCase).TypeErrorThrown? <==>
      DerivedFromHook(node, current, hookName) && |node.arguments| == 0
    ensures CheckCall(node, current, hookName, constantCase).Report? ==>
      && StringValueOf(node.arguments[0]).Some?
      && CheckCall(node, current, hookName, constantCase) ==
           Report(node.arguments[0], ErrorMessage, MessageId, Suggestion(StringValueOf(node.arguments[0]).value, constantCase))
  {
    CheckCallGuards(node, current, hookName, constantCase);
    DerivedFromHookIffApplies(node, current, hookName);
  }

  /**
   * With an idempotent transform that emits no `.`, every reported key
   * differs from its replacement text, and the replacement text, read as a
   * key, passes `IsConstantCase`. (The fix replaces the whole literal, quotes
   * included, so the applied code is not itself a string literal.)
   */
  lemma ReportedSuggestionIsAccepted(node: Node, current: Scope, hookName: string, constantCase: string -> string)
    requires node.CallExpression?
    requires ReachesModule(current)
    requires EmitsNoDot(constantCase)
    requires Idempotent(constantCase)
    ensures var o := CheckCall(node, current, hookName, constantCase);
      o.Report? ==>
        && o.suggestion != StringValueOf(node.arguments[0]).value
        && IsConstantCase(Some(o.suggestion), constantCase)
  {
    var o := CheckCall(node, current, hookName, constantCase);
    if o.Report? {
      CheckCallOutcome(node, current, hookName, constantCase);
      var key := StringValueOf(node.arguments[0]).value;
      AcceptedKeysAreFixedPoints(key, constantCase);
      SuggestionIsConstantCase(key, constantCase);
    }
  }
}
