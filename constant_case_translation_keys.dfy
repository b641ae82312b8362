/**
 * The `constant-case-translation-keys` rule. For every call expression it
 * checks that the hook is imported into the module, finds the nearest
 * reference to the hook, classifies how the hook's result is bound, decides
 * whether the call under test goes through that binding, and if so requires
 * the literal key to be in CONSTANT_CASE segment by segment.
 *
 * The casing transform of the `change-case` package is not modelled: it is
 * the parameter `constantCase`, and the facts about it that a property needs
 * are stated as that property's preconditions.
 */
module ConstantCaseTranslationKeys {
  import opened Wrappers
  import opened Syntax
  import opened Scopes
  import opened Segments
  import opened GetScopeModule

  const MessageId := "constantCase"
  const DefaultTranslationHookName := "useTranslation"
  const ErrorMessage := "Translation key must be in CONSTANT_CASE"

  /** The rule's single option object, `{ translationHookName?: string }`. */
  datatype RuleOptions = RuleOptions(translationHookName: Option<string>)

  /**
   * What one visit of a call expression does: nothing, one report on the
   * first argument with one suggestion (its message id and the text that
   * replaces the whole argument, quotes included), or the TypeError the
   * source throws when a matching call has no argument to read `.value` from.
   */
  datatype Outcome =
    | NoReport
    | Report(node: Node, message: string, suggestionId: string, suggestion: string)
    | TypeErrorThrown

  /** The hook name chosen in `create`: a truthy option, else the default. */
  function HookName(options: seq<RuleOptions>): (name: string)
    ensures name != ""
    ensures |options| > 0 && options[0].translationHookName.Some? && options[0].translationHookName.value != ""
            ==> name == options[0].translationHookName.value
    ensures !(|options| > 0 && options[0].translationHookName.Some? && options[0].translationHookName.value != "")
            ==> name == DefaultTranslationHookName
  {
    if |options| > 0 && options[0].translationHookName.Some? && options[0].translationHookName.value != ""
    then options[0].translationHookName.value
    else DefaultTranslationHookName
  }

  /** `refs.find(r => r.identifier.name === name)`, as the index of the hit. */
  function FindReference(refs: seq<Reference>, name: string): (k: Option<nat>)
    ensures k.Some? ==> k.value < |refs| && refs[k.value].name == name
    ensures k.Some? ==> forall j :: 0 <= j < k.value ==> refs[j].name != name
    ensures k.None? <==> forall j :: 0 <= j < |refs| ==> refs[j].name != name
  {
    if |refs| == 0 then None
    else if refs[0].name == name then Some(0)
    else
      match FindReference(refs[1..], name)
      case None => None
      case Some(j) => Some(j + 1)
  }

  /**
   * The reference the hook search settles on: the first reference named
   * `hookName` in the innermost scope that has one, ascending through the
   * scopes below the nearest module scope.
   */
  function HookReference(scope: Scope, hookName: string): (r: Option<Reference>)
    requires ReachesModule(scope)
    ensures r.Some? ==> r.value.name == hookName
    decreases scope
  {
    if scope.kind == Module then None
    else
      match FindReference(scope.references, hookName)
      case Some(k) => Some(scope.references[k])
      case None => HookReference(scope.upper.value, hookName)
  }

  /**
   * Reference `j` of scope `i` on the chain is the one the search must find:
   * scope `i` lies below the nearest module scope, the reference is named
   * `hookName`, and no earlier reference of that scope nor any reference of
   * a scope nearer the start has that name.
   */
  ghost predicate NearestAt(scope: Scope, hookName: string, i: nat, j: nat)
    requires ReachesModule(scope)
  {
    && i < ModuleDepth(scope)
    && j < |Chain(scope)[i].references|
    && Chain(scope)[i].references[j].name == hookName
    && (forall j' :: 0 <= j' < j ==> Chain(scope)[i].references[j'].name != hookName)
    && (forall i', j' :: 0 <= i' < i && 0 <= j' < |Chain(scope)[i'].references| ==>
          Chain(scope)[i'].references[j'].name != hookName)
  }

  /** The traversal loop: ascend scope by scope, stop at the first hit. */
  method FindHookReference(current: Scope, hookName: string) returns (result: Option<Reference>)
    requires ReachesModule(current)
    ensures result == HookReference(current, hookName)
  {
    var scope := current;
    result := None;
    while scope.kind != Module
      invariant ReachesModule(scope)
      invariant HookReference(scope, hookName) == HookReference(current, hookName)
      invariant result == None
      decreases scope
    {
      var refs := scope.references;
      if |refs| > 0 {
        var callRef := FindReference(refs, hookName);
        if callRef.Some? {
          result := Some(refs[callRef.value]);
          break;
        }
      }
      scope := scope.upper.value;
    }
  }

  /**
   * `.every(s => constantCase(s) === s)`: every segment is its own
   * constant-case form, that is, mapping the transform leaves the segments unchanged.
   */
  predicate AllSegmentsConstant(parts: seq<string>, constantCase: string -> string)
    ensures AllSegmentsConstant(parts, constantCase) <==> MapSegments(parts, constantCase) == parts
  {
    forall i :: 0 <= i < |parts| ==> constantCase(parts[i]) == parts[i]
  }

  /** `isConstantCase`: any non-string value passes; a string is checked per segment. */
  predicate IsConstantCase(value: Option<string>, constantCase: string -> string)
    ensures value.None? ==> IsConstantCase(value, constantCase)
    ensures value.Some? ==>
      (IsConstantCase(value, constantCase) <==> MapSegments(Split(value.value, '.'), constantCase) == Split(value.value, '.'))
  {
    match value
    case None => true
    case Some(s) => AllSegmentsConstant(Split(s, '.'), constantCase)
  }

  /**
   * The suggested replacement text: constant-case each segment and rejoin
   * with `.`. A key without `.` is constant-cased as a whole.
   */
  function Suggestion(key: string, constantCase: string -> string): (fixed: string)
    ensures '.' !in key ==> fixed == constantCase(key)
  {
    assert '.' !in key ==> Split(key, '.') == [key] by {
      if '.' !in key { SplitWithoutSeparator(key, '.'); }
    }
    Join(MapSegments(Split(key, '.'), constantCase), '.')
  }

  /** The transform never produces a `.`. */
  ghost predicate EmitsNoDot(constantCase: string -> string)
  {
    forall s :: '.' !in constantCase(s)
  }

  /** Applying the transform twice is applying it once. */
  ghost predicate Idempotent(constantCase: string -> string)
  {
    forall s :: constantCase(constantCase(s)) == constantCase(s)
  }

  /** The last guard and the report: the key is read from `arguments[0]`. */
  function ValidateKey(arguments: seq<Node>, constantCase: string -> string): (outcome: Outcome)
    ensures outcome.TypeErrorThrown? <==> |arguments| == 0
    ensures outcome.Report? <==> |arguments| > 0 && !IsConstantCase(StringValueOf(arguments[0]), constantCase)
    ensures outcome.Report? ==>
      && outcome.node == arguments[0] && StringValueOf(arguments[0]).Some?
      && outcome.message == ErrorMessage && outcome.suggestionId == MessageId
  {
    if |arguments| == 0 then TypeErrorThrown
    else
      var value := StringValueOf(arguments[0]);
      if IsConstantCase(value, constantCase) then NoReport
      else Report(arguments[0], ErrorMessage, MessageId, Suggestion(value.value, constantCase))
  }

  /**
   * The test `find` applies to each property of the pattern: an identifier
   * key named `name`. A callee without a name (`None`) matches no key.
   */
  predicate KeyNamed(p: Node, name: Option<string>)
  {
    p.Property? && p.key.Identifier? && Some(p.key.name) == name
  }

  /** `properties.find(p => p.key is an identifier named name)`, as the index of the hit. */
  function FindProperty(properties: seq<Node>, name: Option<string>): (k: Option<nat>)
    ensures k.Some? ==> k.value < |properties| && KeyNamed(properties[k.value], name)
    ensures k.Some? ==> forall j :: 0 <= j < k.value ==> !KeyNamed(properties[j], name)
    ensures k.None? <==> forall j :: 0 <= j < |properties| ==> !KeyNamed(properties[j], name)
    ensures name.None? ==> k.None?
  {
    if |properties| == 0 then None
    else if KeyNamed(properties[0], name) then Some(0)
    else
      match FindProperty(properties[1..], name)
      case None => None
      case Some(j) => Some(j + 1)
  }

  /**
   * The `CallExpression` visitor as one decision, guard by guard in the
   * source's order.
   */
  function CheckCall(node: Node, current: Scope, hookName: string, constantCase: string -> string): (outcome: Outcome)
    requires node.CallExpression?
    requires ReachesModule(current)
    ensures hookName !in ModuleScope(current).bindings ==> outcome.NoReport?
    ensures HookReference(current, hookName).None? ==> outcome.NoReport?
    ensures !outcome.NoReport? ==> outcome == ValidateKey(node.arguments, constantCase)
  {
    if hookName !in ModuleScope(current).bindings then NoReport
    else
      match HookReference(current, hookName)
      case None => NoReport
      case Some(ref) =>
        if !IsCallExpression(ref.parent) then NoReport
        else
          match IdOf(ref.grandparent)
          case Some(ObjectPattern(properties)) =>
            if |properties| == 0 then NoReport
            else if FindProperty(properties, CalleeName(node.callee)).None? then NoReport
            else ValidateKey(node.arguments, constantCase)
          case Some(Identifier(bound)) =>
            if !node.callee.MemberExpression? then NoReport
            else if !node.callee.obj.Identifier? || node.callee.obj.name != bound then NoReport
            else ValidateKey(node.arguments, constantCase)
          case _ => NoReport
  }

  /**
   * The visitor as the source runs it: the two scope walks, then the guards.
   */
  method OnCallExpression(node: Node, current: Scope, hookName: string, constantCase: string -> string)
    returns (outcome: Outcome)
    requires node.CallExpression?
    requires ReachesModule(current)
    ensures outcome == CheckCall(node, current, hookName, constantCase)
  {
    var moduleScope := GetModuleScope(current);
    if hookName !in moduleScope.bindings {
      return NoReport;
    }
    var hookCall := FindHookReference(current, hookName);
    if hookCall.None? {
      return NoReport;
    }
    var ref := hookCall.value;
    if !IsCallExpression(ref.parent) {
      return NoReport;
    }
    var parentId := IdOf(ref.grandparent);
    if parentId.Some? && parentId.value.ObjectPattern? {
      var properties := parentId.value.properties;
      if |properties| == 0 {
        return NoReport;
      }
      if FindProperty(properties, CalleeName(node.callee)).None? {
        return NoReport;
      }
      outcome := ValidateKey(node.arguments, constantCase);
    } else if parentId.Some? && parentId.value.Identifier? {
      if !node.callee.MemberExpression? {
        return NoReport;
      }
      if !node.callee.obj.Identifier? || node.callee.obj.name != parentId.value.name {
        return NoReport;
      }
      outcome := ValidateKey(node.arguments, constantCase);
    } else {
      outcome := NoReport;
    }
  }
}
