/**
 * The rule's test cases as lemmas. Each fixture is a reduced scope graph for
 * a component like
 *
 *     import {useTranslation} from "react-i18next";
 *     export const Component = () => { const {t} = useTranslation(); return <div>{t(KEY)}</div> };
 *
 * It keeps the module scope with its import binding and, in the component's
 * scope, the read reference to the hook followed by the reference of the
 * call under test. The write reference to the declarator's target is left
 * out (the search skips references with other names), and the component's
 * bindings are fixed at `t` and `ut` (the rule reads only the module scope's).
 *
 * A test passes when the file's messages are exactly the expected ones, so
 * each case states `ComponentReports`: the outcomes of visiting both calls of
 * the file, `hook()` and the call under test.
 *
 * The casing transform is still a parameter: each lemma assumes only what it
 * needs of it on the literal segments of its key. The literal key is a
 * parameter fixed by a `requires`, which keeps the literal out of the terms
 * the solver unfolds while proving the file's outcome.
 */
module RuleScenarios {
  import opened Wrappers
  import opened Syntax
  import opened Scopes
  import opened Segments
  import opened GetScopeModule
  import opened ConstantCaseTranslationKeys

  const Root := Scope(Global, None, {}, [])

  /** `{t}` as a declarator target. */
  const DestructuredT := ObjectPattern([Property(Identifier("t"), Identifier("t"))])

  /** The module scope, with `imported` bound by the import declaration. */
  function ModuleOf(imported: string): (m: Scope)
    ensures m.kind == Module && imported in m.bindings
  {
    Scope(Module, Some(Root), {imported, "Component"},
      [Reference("Component", Some(VariableDeclarator(Identifier("Component"), Some(OtherNode("ArrowFunctionExpression")))), None)])
  }

  /** `hook()` */
  function HookCall(hook: string): (call: Node) { CallExpression(Identifier(hook), []) }

  /** `target = hook()` inside the component, followed by the call under test. */
  function ComponentScope(imported: string, hook: string, target: Node, call: Node, callName: string): (scope: Scope)
  {
    Scope(Function, Some(ModuleOf(imported)), {"t", "ut"},
      [ Reference(hook, Some(HookCall(hook)), Some(VariableDeclarator(target, Some(HookCall(hook)))))
      , Reference(callName, Some(call), Some(OtherNode("JSXExpressionContainer"))) ])
  }

  /** `t(arg)` */
  function TCall(arg: Node): (call: Node) { CallExpression(Identifier("t"), [arg]) }

  /** `ut.t(arg)` for a bound identifier `ut`. */
  function MemberTCall(ut: string, arg: Node): (call: Node)
  {
    CallExpression(MemberExpression(Identifier(ut), Identifier("t")), [arg])
  }

  function Key(s: string): (lit: Node) { Literal(StringValue(s)) }

  /**
   * The messages of a file as a rule tester collects them: the outcomes of
   * the visits in order, with the silent ones dropped.
   */
  function Reported(outcomes: seq<Outcome>): (messages: seq<Outcome>)
    ensures |messages| <= |outcomes|
    ensures forall k :: 0 <= k < |messages| ==> !messages[k].NoReport?
  {
    if outcomes == [] then []
    else (if outcomes[0].NoReport? then [] else [outcomes[0]]) + Reported(outcomes[1..])
  }

  /** The messages of two visits: the first one's, then the second one's. */
  lemma ReportedPair(a: Outcome, b: Outcome)
    ensures Reported([a, b]) == (if a.NoReport? then [] else [a]) + (if b.NoReport? then [] else [b])
  {
    assert [a, b][1..] == [b];
    assert [b][1..] == [];
  }

  /**
   * The messages of the component file: the visit of `hook()`, then the
   * visit of the call under test, both in the component's scope.
   */
  function ComponentReports(imported: string, hook: string, target: Node, call: Node, callName: string,
                            hookName: string, constantCase: string -> string): (messages: seq<Outcome>)
    requires call.CallExpression?
    ensures |messages| <= 2
  {
    var scope := ComponentScope(imported, hook, target, call, callName);
    Reported([CheckCall(HookCall(hook), scope, hookName, constantCase), CheckCall(call, scope, hookName, constantCase)])
  }

  /** `const {t} = hook(); t(arg)` goes on to validate the argument. */
  lemma DestructuredCallIsValidated(hook: string, arg: Node, constantCase: string -> string)
    ensures CheckCall(TCall(arg), ComponentScope(hook, hook, DestructuredT, TCall(arg), "t"), hook, constantCase)
            == ValidateKey([arg], constantCase)
  {
    var scope := ComponentScope(hook, hook, DestructuredT, TCall(arg), "t");
    assert FindReference(scope.references, hook) == Some(0);
    assert FindProperty(DestructuredT.properties, Some("t")) == Some(0) by {
      assert DestructuredT.properties[0].key == Identifier("t");
    }
  }

  /** In the same file, the visit of `hook()` itself reports nothing: its callee is not `t`. */
  lemma DestructuredHookCallIgnored(hook: string, arg: Node, constantCase: string -> string)
    requires hook != "t"
    ensures CheckCall(HookCall(hook), ComponentScope(hook, hook, DestructuredT, TCall(arg), "t"), hook, constantCase)
            == NoReport
  {
    var scope := ComponentScope(hook, hook, DestructuredT, TCall(arg), "t");
    assert FindReference(scope.references, hook) == Some(0);
    assert FindProperty(DestructuredT.properties, Some(hook)).None?;
  }

  /** `const ut = hook(); ut.t(arg)` goes on to validate the argument. */
  lemma MemberCallIsValidated(hook: string, ut: string, arg: Node, constantCase: string -> string)
    ensures CheckCall(MemberTCall(ut, arg), ComponentScope(hook, hook, Identifier(ut), MemberTCall(ut, arg), ut), hook, constantCase)
            == ValidateKey([arg], constantCase)
  {
    var scope := ComponentScope(hook, hook, Identifier(ut), MemberTCall(ut, arg), ut);
    assert FindReference(scope.references, hook) == Some(0);
  }

  /** In the same file, the visit of `hook()` reports nothing: its callee is not a member access. */
  lemma MemberHookCallIgnored(hook: string, ut: string, arg: Node, constantCase: string -> string)
    ensures CheckCall(HookCall(hook), ComponentScope(hook, hook, Identifier(ut), MemberTCall(ut, arg), ut), hook, constantCase)
            == NoReport
  {
    var scope := ComponentScope(hook, hook, Identifier(ut), MemberTCall(ut, arg), ut);
    assert FindReference(scope.references, hook) == Some(0);
  }

  /** The file `const {t} = hook(); t(arg)` reports what validating `arg` reports, and nothing else. */
  lemma DestructuredComponentReports(hook: string, arg: Node, constantCase: string -> string)
    requires hook != "t"
    ensures var outcome := ValidateKey([arg], constantCase);
      ComponentReports(hook, hook, DestructuredT, TCall(arg), "t", hook, constantCase)
      == if outcome.NoReport? then [] else [outcome]
  {
    DestructuredHookCallIgnored(hook, arg, constantCase);
    DestructuredCallIsValidated(hook, arg, constantCase);
    ReportedPair(NoReport, ValidateKey([arg], constantCase));
  }

  /** The file `const ut = hook(); ut.t(arg)` reports what validating `arg` reports, and nothing else. */
  lemma MemberComponentReports(hook: string, ut: string, arg: Node, constantCase: string -> string)
    ensures var outcome := ValidateKey([arg], constantCase);
      ComponentReports(hook, hook, Identifier(ut), MemberTCall(ut, arg), ut, hook, constantCase)
      == if outcome.NoReport? then [] else [outcome]
  {
    MemberHookCallIgnored(hook, ut, arg, constantCase);
    MemberCallIsValidated(hook, ut, arg, constantCase);
    ReportedPair(NoReport, ValidateKey([arg], constantCase));
  }

  /** A one-segment literal key: reported exactly when the transform changes it, with the transformed key as fix. */
  lemma OneSegmentKeyValidation(key: string, constantCase: string -> string)
    requires '.' !in key
    ensures ValidateKey([Key(key)], constantCase) ==
      if constantCase(key) == key then NoReport
      else Report(Key(key), ErrorMessage, MessageId, constantCase(key))
  {
    SplitWithoutSeparator(key, '.');
    assert AllSegmentsConstant([key], constantCase) <==> constantCase(key) == key by {
      assert [key][0] == key;
    }
    assert MapSegments([key], constantCase) == [constantCase(key)];
    assert Join([constantCase(key)], '.') == constantCase(key);
  }

  /** A two-segment literal key `a.b`: both segments are checked and fixed on their own. */
  lemma TwoSegmentKeyValidation(a: string, b: string, constantCase: string -> string)
    requires '.' !in a && '.' !in b
    ensures ValidateKey([Key(a + ['.'] + b)], constantCase) ==
      if constantCase(a) == a && constantCase(b) == b then NoReport
      else Report(Key(a + ['.'] + b), ErrorMessage, MessageId, constantCase(a) + ['.'] + constantCase(b))
  {
    SplitAtFirstSeparator(a, b, '.');
    SplitWithoutSeparator(b, '.');
    assert Split(a + ['.'] + b, '.') == [a, b];
    assert AllSegmentsConstant([a, b], constantCase) <==> constantCase(a) == a && constantCase(b) == b by {
      assert [a, b][0] == a && [a, b][1] == b;
    }
    assert MapSegments([a, b], constantCase) == [constantCase(a), constantCase(b)];
    assert [constantCase(a), constantCase(b)][1..] == [constantCase(b)];
    assert Join([constantCase(a), constantCase(b)], '.') == constantCase(a) + ['.'] + constantCase(b);
  }

  /** The shapes of the literal keys and hook names used below. */
  lemma LiteralKeyShapes()
    ensures '.' !in "CONSTANT_CASE_KEY" && '.' !in "NAMESPACE"
    ensures '.' !in "camelCaseKey" && '.' !in "namespace"
    ensures "NAMESPACE.CONSTANT_CASE_KEY" == "NAMESPACE" + ['.'] + "CONSTANT_CASE_KEY"
    ensures "namespace.camelCaseKey" == "namespace" + ['.'] + "camelCaseKey"
    ensures "NAMESPACE" + ['.'] + "CAMEL_CASE_KEY" == "NAMESPACE.CAMEL_CASE_KEY"
    ensures "useTranslation" != "t" && "useTrs" != "t"
  {
  }

  /** Valid: `t("CONSTANT_CASE_KEY")` under the default hook name: the file has no message. */
  lemma ConstantKeyAccepted(key: string, constantCase: string -> string)
    requires key == "CONSTANT_CASE_KEY"
    requires constantCase("CONSTANT_CASE_KEY") == "CONSTANT_CASE_KEY"
    ensures ComponentReports("useTranslation", "useTranslation", DestructuredT, TCall(Key(key)), "t", HookName([]), constantCase)
            == []
  {
    assert HookName([]) == "useTranslation";
    assert ValidateKey([Key(key)], constantCase) == NoReport by {
      LiteralKeyShapes();
      OneSegmentKeyValidation(key, constantCase);
    }
    assert ComponentReports("useTranslation", "useTranslation", DestructuredT, TCall(Key(key)), "t", "useTranslation", constantCase) == [] by {
      LiteralKeyShapes();
      DestructuredComponentReports("useTranslation", Key(key), constantCase);
    }
  }

  /** Valid: with `translationHookName: "useTrs"`, `t("CONSTANT_CASE_KEY")` after `useTrs()`: no message. */
  lemma ConfiguredHookConstantKeyAccepted(key: string, constantCase: string -> string)
    requires key == "CONSTANT_CASE_KEY"
    requires constantCase("CONSTANT_CASE_KEY") == "CONSTANT_CASE_KEY"
    ensures ComponentReports("useTrs", "useTrs", DestructuredT, TCall(Key(key)), "t", HookName([RuleOptions(Some("useTrs"))]), constantCase)
            == []
  {
    assert HookName([RuleOptions(Some("useTrs"))]) == "useTrs";
    assert ValidateKey([Key(key)], constantCase) == NoReport by {
      LiteralKeyShapes();
      OneSegmentKeyValidation(key, constantCase);
    }
    assert ComponentReports("useTrs", "useTrs", DestructuredT, TCall(Key(key)), "t", "useTrs", constantCase) == [] by {
      LiteralKeyShapes();
      DestructuredComponentReports("useTrs", Key(key), constantCase);
    }
  }

  /** Valid: `t("NAMESPACE.CONSTANT_CASE_KEY")`: no message. */
  lemma NamespacedConstantKeyAccepted(key: string, constantCase: string -> string)
    requires key == "NAMESPACE.CONSTANT_CASE_KEY"
    requires constantCase("NAMESPACE") == "NAMESPACE"
    requires constantCase("CONSTANT_CASE_KEY") == "CONSTANT_CASE_KEY"
    ensures ComponentReports("useTranslation", "useTranslation", DestructuredT, TCall(Key(key)), "t", HookName([]), constantCase)
            == []
  {
    assert HookName([]) == "useTranslation";
    assert ValidateKey([Key(key)], constantCase) == NoReport by {
      LiteralKeyShapes();
      TwoSegmentKeyValidation("NAMESPACE", "CONSTANT_CASE_KEY", constantCase);
    }
    assert ComponentReports("useTranslation", "useTranslation", DestructuredT, TCall(Key(key)), "t", "useTranslation", constantCase) == [] by {
      LiteralKeyShapes();
      DestructuredComponentReports("useTranslation", Key(key), constantCase);
    }
  }

  /** Valid: `ut.t("CONSTANT_CASE_KEY")`: no message. */
  lemma MemberConstantKeyAccepted(key: string, constantCase: string -> string)
    requires key == "CONSTANT_CASE_KEY"
    requires constantCase("CONSTANT_CASE_KEY") == "CONSTANT_CASE_KEY"
    ensures ComponentReports("useTranslation", "useTranslation", Identifier("ut"), MemberTCall("ut", Key(key)), "ut", HookName([]), constantCase)
            == []
  {
    assert HookName([]) == "useTranslation";
    assert ValidateKey([Key(key)], constantCase) == NoReport by {
      LiteralKeyShapes();
      OneSegmentKeyValidation(key, constantCase);
    }
    assert ComponentReports("useTranslation", "useTranslation", Identifier("ut"), MemberTCall("ut", Key(key)), "ut", "useTranslation", constantCase) == [] by {
      LiteralKeyShapes();
      MemberComponentReports("useTranslation", "ut", Key(key), constantCase);
    }
  }

  /** Valid: `t(translationKey)`: an identifier argument is never reported, whatever the transform; no message. */
  lemma IdentifierKeyAccepted(constantCase: string -> string)
    ensures ComponentReports("useTranslation", "useTranslation", DestructuredT, TCall(Identifier("translationKey")), "t",
      HookName([]), constantCase) == []
  {
    assert HookName([]) == "useTranslation";
    assert ValidateKey([Identifier("translationKey")], constantCase) == NoReport;
    LiteralKeyShapes();
    DestructuredComponentReports("useTranslation", Identifier("translationKey"), constantCase);
  }

  /**
   * Valid: `import {useTranslation as useT}`: the module binds `useT`, so
   * under the default hook name neither call is reported, whatever the key.
   */
  lemma AliasedImportIgnored(key: string, constantCase: string -> string)
    ensures ComponentReports("useT", "useT", DestructuredT, TCall(Key(key)), "t", HookName([]), constantCase) == []
  {
    assert HookName([]) == "useTranslation";
    var scope := ComponentScope("useT", "useT", DestructuredT, TCall(Key(key)), "t");
    assert "useTranslation" !in ModuleScope(scope).bindings;
    ReportedPair(NoReport, NoReport);
  }

  /** Invalid: `t("camelCaseKey")` is the file's one message, with the fix `CAMEL_CASE_KEY`. */
  lemma CamelCaseKeyReported(key: string, constantCase: string -> string)
    requires key == "camelCaseKey"
    requires constantCase("camelCaseKey") == "CAMEL_CASE_KEY"
    ensures ComponentReports("useTranslation", "useTranslation", DestructuredT, TCall(Key(key)), "t", HookName([]), constantCase)
            == [Report(Key(key), ErrorMessage, MessageId, "CAMEL_CASE_KEY")]
  {
    assert HookName([]) == "useTranslation";
    assert ValidateKey([Key(key)], constantCase) == Report(Key(key), ErrorMessage, MessageId, "CAMEL_CASE_KEY") by {
      LiteralKeyShapes();
      OneSegmentKeyValidation(key, constantCase);
    }
    assert ComponentReports("useTranslation", "useTranslation", DestructuredT, TCall(Key(key)), "t", "useTranslation", constantCase) == [Report(Key(key), ErrorMessage, MessageId, "CAMEL_CASE_KEY")] by {
      LiteralKeyShapes();
      DestructuredComponentReports("useTranslation", Key(key), constantCase);
    }
  }

  /** Invalid: `t("namespace.camelCaseKey")` is the file's one message, fixed segment by segment. */
  lemma NamespacedCamelCaseKeyReported(key: string, constantCase: string -> string)
    requires key == "namespace.camelCaseKey"
    requires constantCase("namespace") == "NAMESPACE"
    requires constantCase("camelCaseKey") == "CAMEL_CASE_KEY"
    ensures ComponentReports("useTranslation", "useTranslation", DestructuredT, TCall(Key(key)), "t", HookName([]), constantCase)
            == [Report(Key(key), ErrorMessage, MessageId, "NAMESPACE.CAMEL_CASE_KEY")]
  {
    assert HookName([]) == "useTranslation";
    assert ValidateKey([Key(key)], constantCase) == Report(Key(key), ErrorMessage, MessageId, "NAMESPACE.CAMEL_CASE_KEY") by {
      LiteralKeyShapes();
      TwoSegmentKeyValidation("namespace", "camelCaseKey", constantCase);
    }
    assert ComponentReports("useTranslation", "useTranslation", DestructuredT, TCall(Key(key)), "t", "useTranslation", constantCase) == [Report(Key(key), ErrorMessage, MessageId, "NAMESPACE.CAMEL_CASE_KEY")] by {
      LiteralKeyShapes();
      DestructuredComponentReports("useTranslation", Key(key), constantCase);
    }
  }

  /** Invalid: `ut.t("camelCaseKey")` through a plain identifier binding is the file's one message. */
  lemma MemberCamelCaseKeyReported(key: string, constantCase: string -> string)
    requires key == "camelCaseKey"
    requires constantCase("camelCaseKey") == "CAMEL_CASE_KEY"
    ensures ComponentReports("useTranslation", "useTranslation", Identifier("ut"), MemberTCall("ut", Key(key)), "ut", HookName([]), constantCase)
            == [Report(Key(key), ErrorMessage, MessageId, "CAMEL_CASE_KEY")]
  {
    assert HookName([]) == "useTranslation";
    assert ValidateKey([Key(key)], constantCase) == Report(Key(key), ErrorMessage, MessageId, "CAMEL_CASE_KEY") by {
      LiteralKeyShapes();
      OneSegmentKeyValidation(key, constantCase);
    }
    assert ComponentReports("useTranslation", "useTranslation", Identifier("ut"), MemberTCall("ut", Key(key)), "ut", "useTranslation", constantCase) == [Report(Key(key), ErrorMessage, MessageId, "CAMEL_CASE_KEY")] by {
      LiteralKeyShapes();
      MemberComponentReports("useTranslation", "ut", Key(key), constantCase);
    }
  }

  /** Invalid: `ut.t("namespace.camelCaseKey")` is the file's one message. */
  lemma MemberNamespacedCamelCaseKeyReported(key: string, constantCase: string -> string)
    requires key == "namespace.camelCaseKey"
    requires constantCase("namespace") == "NAMESPACE"
    requires constantCase("camelCaseKey") == "CAMEL_CASE_KEY"
    ensures ComponentReports("useTranslation", "useTranslation", Identifier("ut"), MemberTCall("ut", Key(key)), "ut", HookName([]), constantCase)
            == [Report(Key(key), ErrorMessage, MessageId, "NAMESPACE.CAMEL_CASE_KEY")]
  {
    assert HookName([]) == "useTranslation";
    assert ValidateKey([Key(key)], constantCase) == Report(Key(key), ErrorMessage, MessageId, "NAMESPACE.CAMEL_CASE_KEY") by {
      LiteralKeyShapes();
      TwoSegmentKeyValidation("namespace", "camelCaseKey", constantCase);
    }
    assert ComponentReports("useTranslation", "useTranslation", Identifier("ut"), MemberTCall("ut", Key(key)), "ut", "useTranslation", constantCase) == [Report(Key(key), ErrorMessage, MessageId, "NAMESPACE.CAMEL_CASE_KEY")] by {
      LiteralKeyShapes();
      MemberComponentReports("useTranslation", "ut", Key(key), constantCase);
    }
  }

  /** Invalid: with `translationHookName: "useTrs"`, `t("camelCaseKey")` after `useTrs()` is the file's one message. */
  lemma ConfiguredHookCamelCaseKeyReported(key: string, constantCase: string -> string)
    requires key == "camelCaseKey"
    requires constantCase("camelCaseKey") == "CAMEL_CASE_KEY"
    ensures ComponentReports("useTrs", "useTrs", DestructuredT, TCall(Key(key)), "t", HookName([RuleOptions(Some("useTrs"))]), constantCase)
            == [Report(Key(key), ErrorMessage, MessageId, "CAMEL_CASE_KEY")]
  {
    assert HookName([RuleOptions(Some("useTrs"))]) == "useTrs";
    assert ValidateKey([Key(key)], constantCase) == Report(Key(key), ErrorMessage, MessageId, "CAMEL_CASE_KEY") by {
      LiteralKeyShapes();
      OneSegmentKeyValidation(key, constantCase);
    }
    assert ComponentReports("useTrs", "useTrs", DestructuredT, TCall(Key(key)), "t", "useTrs", constantCase) == [Report(Key(key), ErrorMessage, MessageId, "CAMEL_CASE_KEY")] by {
      LiteralKeyShapes();
      DestructuredComponentReports("useTrs", Key(key), constantCase);
    }
  }

  /** Invalid: with `translationHookName: "useTrs"`, `t("namespace.camelCaseKey")` is the file's one message. */
  lemma ConfiguredHookNamespacedKeyReported(key: string, constantCase: string -> string)
    requires key == "namespace.camelCaseKey"
    requires constantCase("namespace") == "NAMESPACE"
    requires constantCase("camelCaseKey") == "CAMEL_CASE_KEY"
    ensures ComponentReports("useTrs", "useTrs", DestructuredT, TCall(Key(key)), "t", HookName([RuleOptions(Some("useTrs"))]), constantCase)
            == [Report(Key(key), ErrorMessage, MessageId, "NAMESPACE.CAMEL_CASE_KEY")]
  {
    assert HookName([RuleOptions(Some("useTrs"))]) == "useTrs";
    assert ValidateKey([Key(key)], constantCase) == Report(Key(key), ErrorMessage, MessageId, "NAMESPACE.CAMEL_CASE_KEY") by {
      LiteralKeyShapes();
      TwoSegmentKeyValidation("namespace", "camelCaseKey", constantCase);
    }
    assert ComponentReports("useTrs", "useTrs", DestructuredT, TCall(Key(key)), "t", "useTrs", constantCase) == [Report(Key(key), ErrorMessage, MessageId, "NAMESPACE.CAMEL_CASE_KEY")] by {
      LiteralKeyShapes();
      DestructuredComponentReports("useTrs", Key(key), constantCase);
    }
  }

  /** Invalid: with `translationHookName: "useTrs"`, `trs.t("namespace.camelCaseKey")` is the file's one message. */
  lemma ConfiguredHookMemberNamespacedKeyReported(key: string, constantCase: string -> string)
    requires key == "namespace.camelCaseKey"
    requires constantCase("namespace") == "NAMESPACE"
    requires constantCase("camelCaseKey") == "CAMEL_CASE_KEY"
    ensures ComponentReports("useTrs", "useTrs", Identifier("trs"), MemberTCall("trs", Key(key)), "trs", HookName([RuleOptions(Some("useTrs"))]), constantCase)
            == [Report(Key(key), ErrorMessage, MessageId, "NAMESPACE.CAMEL_CASE_KEY")]
  {
    assert HookName([RuleOptions(Some("useTrs"))]) == "useTrs";
    assert ValidateKey([Key(key)], constantCase) == Report(Key(key), ErrorMessage, MessageId, "NAMESPACE.CAMEL_CASE_KEY") by {
      LiteralKeyShapes();
      TwoSegmentKeyValidation("namespace", "camelCaseKey", constantCase);
    }
    assert ComponentReports("useTrs", "useTrs", Identifier("trs"), MemberTCall("trs", Key(key)), "trs", "useTrs", constantCase) == [Report(Key(key), ErrorMessage, MessageId, "NAMESPACE.CAMEL_CASE_KEY")] by {
      LiteralKeyShapes();
      MemberComponentReports("useTrs", "trs", Key(key), constantCase);
    }
  }

  /** `{t: translate}`: the property key `t`, not the local alias. */
  const AliasedT := ObjectPattern([Property(Identifier("t"), Identifier("translate"))])

  /**
   * `const {t: translate} = useTranslation(); translate("...")` is never
   * reported: the callee is matched against the property key, not the alias.
   */
  lemma AliasNameNotMatched(key: string, constantCase: string -> string)
    ensures CheckCall(CallExpression(Identifier("translate"), [Key(key)]),
      ComponentScope("useTranslation", "useTranslation", AliasedT, CallExpression(Identifier("translate"), [Key(key)]), "translate"),
      "useTranslation", constantCase) == NoReport
  {
    var scope := ComponentScope("useTranslation", "useTranslation", AliasedT, CallExpression(Identifier("translate"), [Key(key)]), "translate");
    assert FindReference(scope.references, "useTranslation") == Some(0);
    assert FindProperty(AliasedT.properties, Some("translate")).None?;
  }

  /** With the same pattern, a call named like the key `t` is validated. */
  lemma AliasedPatternKeyMatched(key: string, constantCase: string -> string)
    ensures CheckCall(TCall(Key(key)),
      ComponentScope("useTranslation", "useTranslation", AliasedT, TCall(Key(key)), "t"),
      "useTranslation", constantCase) == ValidateKey([Key(key)], constantCase)
  {
    var scope := ComponentScope("useTranslation", "useTranslation", AliasedT, TCall(Key(key)), "t");
    assert FindReference(scope.references, "useTranslation") == Some(0);
    assert AliasedT.properties[0].key == Identifier("t");
  }

  /** `ut.<any property>("...")`: the member's property name is not looked at. */
  lemma MemberPropertyNameIgnored(property: string, key: string, constantCase: string -> string)
    ensures var call := CallExpression(MemberExpression(Identifier("ut"), Identifier(property)), [Key(key)]);
      CheckCall(call, ComponentScope("useTranslation", "useTranslation", Identifier("ut"), call, "ut"), "useTranslation", constantCase)
      == ValidateKey([Key(key)], constantCase)
  {
    var call := CallExpression(MemberExpression(Identifier("ut"), Identifier(property)), [Key(key)]);
    var scope := ComponentScope("useTranslation", "useTranslation", Identifier("ut"), call, "ut");
    assert FindReference(scope.references, "useTranslation") == Some(0);
  }

  /** `t()` after `const {t} = useTranslation()`: the source reads `.value` of undefined and throws. */
  lemma ArgumentlessCallThrows(constantCase: string -> string)
    ensures CheckCall(CallExpression(Identifier("t"), []),
      ComponentScope("useTranslation", "useTranslation", DestructuredT, CallExpression(Identifier("t"), []), "t"),
      "useTranslation", constantCase) == TypeErrorThrown
  {
    var scope := ComponentScope("useTranslation", "useTranslation", DestructuredT, CallExpression(Identifier("t"), []), "t");
    assert FindReference(scope.references, "useTranslation") == Some(0);
    assert DestructuredT.properties[0].key == Identifier("t");
  }

  /**
   * Any call visited directly in a module scope is never reported, whatever
   * the module declares and references (even a call of the hook there): the
   * search never looks at the module scope's own references.
   */
  lemma ModuleLevelCallIgnored(node: Node, current: Scope, hookName: string, constantCase: string -> string)
    requires node.CallExpression? && current.kind == Module
    ensures CheckCall(node, current, hookName, constantCase) == NoReport
  {
  }
}
