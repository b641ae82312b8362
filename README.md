# constant-case-translation-keys, modelled in Dafny

This project models the ESLint rule `constant-case-translation-keys` and the
helper `getModuleScope` it depends on. The rule checks literal translation
keys passed to the function returned by a translation hook (by default
`useTranslation`). Each key must be CONSTANT_CASE, segment by segment, where
segments are separated by `.`. When a key fails, the rule offers a rewrite.

On every `CallExpression` the rule does the following:

1. It walks `upper` links from the current scope to the nearest module scope.
2. It gives up unless the hook name is declared there.
3. It searches the non-module scopes, innermost first, for the first reference to the hook.
4. It requires that reference to sit directly under a call expression.
5. It reads the declarator target of that call: an object pattern `{t}` or an identifier `ut`.
6. It decides whether the visited call goes through that binding: `t(...)` for a pattern, `ut.x(...)` for an identifier.
7. It validates `arguments[0].value`.

Files:

- `wrappers.dfy`: `Option`, standing for `undefined`/`null`.
- `segments.dfy`: `split(".")`, `join(".")` and `map`, with JavaScript semantics, and the round-trip lemmas between them.
- `syntax.dfy`: the closed set of node shapes the rule inspects.
- `scopes.dfy`: scopes as a chain of values (kind, `upper`, declared names, references in order); `ReachesModule`, `Chain`, `ModuleDepth`.
- `get_scope_module.dfy`: `getModuleScope` as a loop (`GetModuleScope`) proved against its specification `ModuleScope`.
- `constant_case_translation_keys.dfy`: the hook-name default, the reference search (`FindHookReference` loop, `HookReference` specification), `isConstantCase`, the fix text, the visitor as a pure decision (`CheckCall`), and the visitor as the source runs it (`OnCallExpression`).
- `rule_properties.dfy`: what the rule promises, proved about the model.
- `rule_scenarios.dfy`: the repository's test cases, plus a few edge cases, as lemmas.

The casing function of the `change-case` package is the parameter
`constantCase: string -> string`. Lemmas that need facts about it state those
facts as preconditions. `EmitsNoDot` says its output never contains `.`.
`Idempotent` says applying it twice equals applying it once. The test-case
lemmas assume only its values on the literal segments they use.

The model keeps three behaviours of the code that a reader might not expect:

- A matching call with no arguments reads `.value` of `undefined` and throws. The model returns `TypeErrorThrown`. It does not treat the call as valid.
- The hook reference only needs its parent to be a `CallExpression`. The reference does not have to be that call's callee.
- The fix replaces the whole first argument, quotes included, with the bare constant-cased text (`fixer.replaceText` at lib/rules/constant-case-translation-keys.ts:120 and :156). Applying it turns `t("camelCaseKey")` into `t(CAMEL_CASE_KEY)`, an identifier, and `t("a.b")` into a member expression; neither is a string key any more. `Report.suggestion` is that replacement text.

## Model

| member | source | states |
|---|---|---|
| `Segments.Split` | lib/rules/constant-case-translation-keys.ts:41 | `split(".")` always yields at least one segment, and no segment contains the separator |
| `Segments.Join` | lib/rules/constant-case-translation-keys.ts:119 | the joined text starts with the first piece, followed by `.` when more pieces come |
| `Segments.MapSegments` | lib/rules/constant-case-translation-keys.ts:118 | `.map(constantCase)` keeps the number of segments and puts the transform of segment `i` at position `i` |
| `Segments.JoinSplit` | lib/rules/constant-case-translation-keys.ts:117-119 | joining the segments of a split gives back the original key |
| `Segments.SplitWithoutSeparator` | lib/rules/constant-case-translation-keys.ts:41 | a key without `.` is one segment |
| `Segments.SplitAtFirstSeparator` | lib/rules/constant-case-translation-keys.ts:41 | a `.` after a dot-free prefix ends the first segment there |
| `Segments.SplitJoin` | lib/rules/constant-case-translation-keys.ts:117-119 | splitting the join of dot-free segments gives back those segments |
| `Syntax.IdOf` | lib/rules/constant-case-translation-keys.ts:85-86 | `parent.parent?.id` exists exactly when the grandparent is a declarator |
| `Syntax.CalleeName` | lib/rules/constant-case-translation-keys.ts:89 | the callee has a name exactly when it is an identifier |
| `Syntax.StringValueOf` | lib/rules/constant-case-translation-keys.ts:103 | the argument's `value` is a string exactly for a string literal |
| `Scopes.ModuleDepth` | lib/helpers/getScopeModule.ts:5-7 | when the chain reaches a module scope, gives the position of the first module scope on it, with every earlier scope non-module |
| `Scopes.ReachesModuleIffChainHasModule` | lib/helpers/getScopeModule.ts:5-7 | the walk's precondition holds exactly when some scope on the `upper` chain is a module scope |
| `GetScopeModule.ModuleScope` | lib/helpers/getScopeModule.ts:3-10 | the result is a module scope, is the nearest one on the chain, and is the start scope itself when that is a module scope |
| `GetScopeModule.GetModuleScope` | lib/helpers/getScopeModule.ts:3-10 | the loop returns a module scope, equal to `ModuleScope` of the start, changing nothing |
| `ConstantCaseTranslationKeys.HookName` | lib/rules/constant-case-translation-keys.ts:62-63 | the hook name is never empty; it is the first option's `translationHookName` when that is a non-empty string, otherwise `useTranslation` |
| `ConstantCaseTranslationKeys.FindReference` | lib/rules/constant-case-translation-keys.ts:24 | gives the index of the first reference with the name, or nothing exactly when no reference has it |
| `ConstantCaseTranslationKeys.HookReference` | lib/rules/constant-case-translation-keys.ts:19-35 | any reference found carries the hook's name |
| `ConstantCaseTranslationKeys.FindHookReference` | lib/rules/constant-case-translation-keys.ts:15-36 | the `while` loop with `break` returns exactly `HookReference` of the start scope |
| `ConstantCaseTranslationKeys.AllSegmentsConstant` | lib/rules/constant-case-translation-keys.ts:41 | `.every(s => constantCase(s) === s)` holds exactly when mapping the transform over the segments leaves them unchanged |
| `ConstantCaseTranslationKeys.IsConstantCase` | lib/rules/constant-case-translation-keys.ts:38-42 | a non-string value passes; a string passes exactly when every `.`-separated segment is its own constant-case form, i.e. mapping the transform over its segments leaves them unchanged |
| `ConstantCaseTranslationKeys.FindProperty` | lib/rules/constant-case-translation-keys.ts:94-97 | `find` gives the index of the first property whose key is an identifier named like the callee, or nothing exactly when none is; a callee without a name matches nothing |
| `ConstantCaseTranslationKeys.Suggestion` | lib/rules/constant-case-translation-keys.ts:114-119 | a key without `.` is replaced by its constant-cased form as a whole |
| `ConstantCaseTranslationKeys.ValidateKey` | lib/rules/constant-case-translation-keys.ts:100-123 | throws exactly when there is no argument; reports exactly when the first argument is a string that fails `isConstantCase`; the report is on that argument with the rule's message and suggestion id |
| `ConstantCaseTranslationKeys.CheckCall` | lib/rules/constant-case-translation-keys.ts:65-161 | nothing is reported when the hook is not declared in the module scope or no hook reference is found; any report or exception is that of validating the call's arguments |
| `ConstantCaseTranslationKeys.OnCallExpression` | lib/rules/constant-case-translation-keys.ts:65-161 | the visitor, calling both scope-walk loops, produces exactly the outcome `CheckCall` decides |
| `RuleProperties.HookReferenceIsNearest` | lib/rules/constant-case-translation-keys.ts:19-35 | the search finds nothing exactly when no scope below the module scope has a reference with the hook's name; whatever it finds is the nearest such reference (first in stored order, in the innermost scope that has one); the module scope's own references are never returned, so a start at the module scope finds nothing |
| `RuleProperties.NearestAtIsHookReference` | lib/rules/constant-case-translation-keys.ts:19-35 | conversely, the nearest such reference is what the search returns |
| `RuleProperties.SingleSegmentKey` | lib/rules/constant-case-translation-keys.ts:38-42 | a key without `.` is accepted exactly when it equals its constant-case form |
| `RuleProperties.SuggestionSegments` | lib/rules/constant-case-translation-keys.ts:114-119 | if the transform emits no `.`, the fix text's segments are the key's segments, each constant-cased, so the segment count is the same |
| `RuleProperties.SuggestionIsConstantCase` | lib/rules/constant-case-translation-keys.ts:114-119 | if the transform is idempotent and emits no `.`, the replacement text, read as a key, passes `isConstantCase` |
| `RuleProperties.AcceptedKeysAreFixedPoints` | lib/rules/constant-case-translation-keys.ts:38-42 | the fix leaves an accepted key unchanged; if the transform emits no `.`, a key the fix leaves unchanged is accepted |
| `RuleProperties.CorrelatesIffGuards` | lib/rules/constant-case-translation-keys.ts:88-99 | the guards of the pattern branch (non-empty properties, an identifier key named like the callee) and of the identifier branch (`callee` is `X.y` with `X` the bound name) hold exactly when `Correlates` does: the key, not the alias, must match, and the member's property name is ignored |
| `RuleProperties.CheckCallGuards` | lib/rules/constant-case-translation-keys.ts:65-99 | the guard chain either returns without a report or goes on to validate `arguments[0]`; it validates exactly when the hook is declared in the module scope, a hook reference is found, its parent is a call, and the callee correlates with the binding target |
| `RuleProperties.DerivedFromHookIffApplies` | lib/rules/constant-case-translation-keys.ts:66-99 | those guards hold exactly when the call is derived from the hook, stated declaratively over the scope chain |
| `RuleProperties.CheckCallOutcome` | lib/rules/constant-case-translation-keys.ts:100-160 | reports exactly the derived calls whose first argument is a string with a non-constant-case segment; a non-string argument is never reported; the report is on `arguments[0]` with message `Translation key must be in CONSTANT_CASE`, suggestion id `constantCase` and the segment-wise fix; throws exactly on a derived call without arguments |
| `RuleProperties.ReportedSuggestionIsAccepted` | lib/rules/constant-case-translation-keys.ts:107-124 | if the transform is idempotent and emits no `.`, a reported key differs from its replacement text, and that text, read as a key, passes `isConstantCase` |
| `RuleScenarios.DestructuredCallIsValidated` | lib/rules/constant-case-translation-keys.ts:88-106 | after `const {t} = hook()`, the call `t(k)` reaches key validation |
| `RuleScenarios.MemberCallIsValidated` | lib/rules/constant-case-translation-keys.ts:125-142 | after `const ut = hook()`, the call `ut.t(k)` reaches key validation |
| `RuleScenarios.DestructuredHookCallIgnored` | lib/rules/constant-case-translation-keys.ts:88-99 | in that file, the visit of `hook()` itself reports nothing, because its callee is not named like the pattern's key |
| `RuleScenarios.MemberHookCallIgnored` | lib/rules/constant-case-translation-keys.ts:125-136 | in the `ut` file, the visit of `hook()` reports nothing, because its callee is not a member access |
| `RuleScenarios.DestructuredComponentReports` | lib/rules/constant-case-translation-keys.ts:65-161 | the file `const {t} = hook(); t(arg)` yields exactly the message of validating `arg`, if any |
| `RuleScenarios.MemberComponentReports` | lib/rules/constant-case-translation-keys.ts:65-161 | the file `const ut = hook(); ut.t(arg)` yields exactly the message of validating `arg`, if any |
| `RuleScenarios.OneSegmentKeyValidation` | lib/rules/constant-case-translation-keys.ts:101-124 | a dot-free literal key is reported exactly when the transform changes it, and the fix is the transformed key |
| `RuleScenarios.TwoSegmentKeyValidation` | lib/rules/constant-case-translation-keys.ts:101-124 | for a key `a.b`, each segment is checked and fixed on its own |
| `RuleScenarios.ConstantKeyAccepted` | tests/lib/rules/constant-case-translation-keys.spec.ts:29-39 | the file `const {t} = useTranslation(); t("CONSTANT_CASE_KEY")` yields no message: neither the visit of `useTranslation()` nor that of `t(...)` reports |
| `RuleScenarios.ConfiguredHookConstantKeyAccepted` | tests/lib/rules/constant-case-translation-keys.spec.ts:40-51 | with the option `useTrs`, the file `const {t} = useTrs(); t("CONSTANT_CASE_KEY")` yields no message |
| `RuleScenarios.NamespacedConstantKeyAccepted` | tests/lib/rules/constant-case-translation-keys.spec.ts:52-62 | the file with `t("NAMESPACE.CONSTANT_CASE_KEY")` yields no message |
| `RuleScenarios.IdentifierKeyAccepted` | tests/lib/rules/constant-case-translation-keys.spec.ts:63-75 | the file with `t(translationKey)` yields no message, whatever the transform |
| `RuleScenarios.AliasedImportIgnored` | tests/lib/rules/constant-case-translation-keys.spec.ts:76-86 | when the module declares `useT` and not `useTranslation`, the file yields no message, whatever the key |
| `RuleScenarios.MemberConstantKeyAccepted` | tests/lib/rules/constant-case-translation-keys.spec.ts:87-97 | the file `const ut = useTranslation(); ut.t("CONSTANT_CASE_KEY")` yields no message |
| `RuleScenarios.CamelCaseKeyReported` | tests/lib/rules/constant-case-translation-keys.spec.ts:101-112 | the file with `t("camelCaseKey")` yields exactly one message: on the literal, with the rule's message and the fix `CAMEL_CASE_KEY` |
| `RuleScenarios.NamespacedCamelCaseKeyReported` | tests/lib/rules/constant-case-translation-keys.spec.ts:113-124 | the file with `t("namespace.camelCaseKey")` yields exactly one message, on the literal, with the fix `NAMESPACE.CAMEL_CASE_KEY` |
| `RuleScenarios.MemberCamelCaseKeyReported` | tests/lib/rules/constant-case-translation-keys.spec.ts:125-136 | the file with `ut.t("camelCaseKey")` yields exactly one message, on the literal, with the fix `CAMEL_CASE_KEY` |
| `RuleScenarios.MemberNamespacedCamelCaseKeyReported` | tests/lib/rules/constant-case-translation-keys.spec.ts:137-148 | the file with `ut.t("namespace.camelCaseKey")` yields exactly one message, on the literal, with the fix `NAMESPACE.CAMEL_CASE_KEY` |
| `RuleScenarios.ConfiguredHookCamelCaseKeyReported` | tests/lib/rules/constant-case-translation-keys.spec.ts:149-161 | with the option `useTrs`, the file with `t("camelCaseKey")` yields exactly one message, on the literal, with the fix `CAMEL_CASE_KEY` |
| `RuleScenarios.ConfiguredHookNamespacedKeyReported` | tests/lib/rules/constant-case-translation-keys.spec.ts:162-174 | with the option `useTrs`, the file with `t("namespace.camelCaseKey")` yields exactly one message, on the literal, with the fix `NAMESPACE.CAMEL_CASE_KEY` |
| `RuleScenarios.ConfiguredHookMemberNamespacedKeyReported` | tests/lib/rules/constant-case-translation-keys.spec.ts:176-188 | with the option `useTrs`, the file with `trs.t("namespace.camelCaseKey")` yields exactly one message, on the literal, with the fix `NAMESPACE.CAMEL_CASE_KEY` |
| `RuleScenarios.AliasNameNotMatched` | lib/rules/constant-case-translation-keys.ts:94-99 | after `const {t: translate} = useTranslation()`, the call `translate(k)` is never reported |
| `RuleScenarios.AliasedPatternKeyMatched` | lib/rules/constant-case-translation-keys.ts:94-99 | with that same pattern, `t(k)` is validated, because the match is on the property key |
| `RuleScenarios.MemberPropertyNameIgnored` | lib/rules/constant-case-translation-keys.ts:127-136 | `ut.<any name>(k)` is validated |
| `RuleScenarios.ArgumentlessCallThrows` | lib/rules/constant-case-translation-keys.ts:101-104 | a matching `t()` throws when `.value` is read |
| `RuleScenarios.ModuleLevelCallIgnored` | lib/rules/constant-case-translation-keys.ts:19-21 | every call visited directly in a module scope gets no report, whatever that scope declares and references, even a call of the hook there |

## Left out

- The `constantCase` function of `change-case` is not modelled. It is a parameter, and the facts a lemma needs about it are that lemma's preconditions.
- The rule's `meta` block and option schema validation (lib/rules/constant-case-translation-keys.ts:45-60) are left out: the host validates options before the rule runs. Options are taken as already valid.
- Plugin registration (lib/index.ts) is not part of this model.
- Parsing and building the scope graph are out of scope. The model takes the current scope (`context.getScope()`) as an input.
- Scope kinds are reduced to six, and node kinds to those the rule inspects; every other kind is `OtherScope`/`OtherNode`. Only a declarator has an `id`. Whether an object-pattern key is computed is not modelled; the source does not look at it.
- Reporting and fixing are not modelled as side effects. `fixer.replaceText` becomes the replacement string in `Report`, and `context.report` becomes returning that `Report`.
- Scopes are values, not shared objects, so aliasing between scopes is not captured. The rule only reads scopes, so it cannot observe the difference.
- `ReachesModule` is a precondition of both scope walks. Without it, `getModuleScope` throws when it reads the type of a `null` scope (lib/helpers/getScopeModule.ts:5), before the hook search starts. The model does not represent that exception.
- The `if (!moduleScope) return` guard (lib/rules/constant-case-translation-keys.ts:68) is not modelled. Under the precondition, `ModuleScope` always returns a module scope, so the guard cannot fire.
