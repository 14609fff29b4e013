/**
 * `resolveValue`: resolve the `var()` references of a declaration value against
 * the map of custom-property declarations, honouring scope, source order and
 * `!important`. The tree helpers the resolver imports (scope containment, the
 * dependency-cycle check, the ancestor splice, a rule's selector) are fields of
 * `Env`, given as functions; the `collectVar` callback is modelled by returning
 * the list of calls it receives.
 *
 * Resolution may recurse without bound in the source (a long chain of
 * references, a cached value that holds a reference); `fuel` bounds both the
 * depth of nested resolutions and the number of substitutions per value, and
 * `None` stands for "ran out of fuel".
 */
module ValueResolver {
  import opened Wrappers
  import opened JsStrings
  import opened Sequences
  import opened JsObjects
  import opened VarSpans
  import opened VarArgs

  /** A handle on a node of the stylesheet tree: the root, an at-rule or a rule. */
  datatype ScopeRef = ScopeRef(id: nat)

  /** A declaration: property, raw value and the node that holds it. */
  datatype Decl = Decl(prop: string, value: string, parent: ScopeRef)

  /**
   * An entry of the variable map: a declaration of the custom property, the node
   * it belongs to, whether it is `!important`, and the value a previous pass
   * cached for it.
   */
  datatype VarDecl = VarDecl(decl: Decl, parent: ScopeRef, isImportant: bool, calculatedInPlaceValue: Option<string>)

  /**
   * The variable map (name to declarations in source order) and the helpers
   * resolve-value.js imports from modules not part of this model:
   * `isNodeUnderScope(reference, candidate, ignorePseudo)`, the
   * `hasCircularOrSelfReference` answer of `gatherVariableDependencies` for a
   * list of names, the parent the splice of `cloneSpliceParentOntoNodeWhen`
   * gives a matched declaration cloned for a reference, and a rule's selector.
   */
  datatype Env = Env(
    vars: map<string, seq<VarDecl>>,
    isNodeUnderScope: (ScopeRef, ScopeRef, bool) -> bool,
    hasCircularOrSelfReference: seq<string> -> bool,
    spliceParent: (Decl, Decl) -> ScopeRef,
    selectorOf: ScopeRef -> string)

  /** The caller's options; nested resolutions use `Options(false, false)`. */
  datatype Options = Options(ignorePseudoScope: bool, collectVar: bool)

  /** What the `collectVar` callback receives for one call. */
  datatype Usage = Usage(selector: string, property: string, defaultValue: string)
  datatype CollectedVar = CollectedVar(name: string, usage: Usage)

  datatype Warning = Warning(message: string, node: Decl)

  /** The result of `resolveValue`; `value` is `None` for `undefined`. */
  datatype Resolution = Resolution(value: Option<string>, variablesUsed: seq<string>, warnings: seq<Warning>)

  // ---------------------------------------------------------------------------
  // Discovery: every name referenced, and the calls handed to `collectVar`

  /** The names referenced directly in `value`, each once, in first-seen order. */
  function VariablesUsed(value: string): (r: seq<string>)
    ensures Distinct(r)
    ensures forall n :: n in r <==> n in Names(Occurrences(value))
  {
    DedupSound(Names(Occurrences(value)));
    Dedup(Names(Occurrences(value)))
  }

  function CollectedCalls(decl: Decl, env: Env, os: seq<Occurrence>): (r: seq<CollectedVar>)
    ensures |r| == |os|
    ensures forall k :: 0 <= k < |os| ==>
      r[k] == CollectedVar(os[k].name, Usage(env.selectorOf(decl.parent), decl.prop, os[k].defaultValue))
  {
    seq(|os|, k requires 0 <= k < |os| =>
      CollectedVar(os[k].name, Usage(env.selectorOf(decl.parent), decl.prop, os[k].defaultValue)))
  }

  /**
   * The first loop of `resolveValue`: scan the value, call `collectVar` once per
   * call found, record each name in an object used as a set, and strip the name
   * so the scan moves on.
   */
  method DiscoverVariables(decl: Decl, env: Env, collect: bool) returns (used: seq<string>, calls: seq<CollectedVar>)
    ensures used == VariablesUsed(decl.value)
    ensures calls == if collect then CollectedCalls(decl, env, Occurrences(decl.value)) else []
  {
    var remaining := decl.value;
    var usedMap: Dict<bool> := Empty();
    calls := [];
    ghost var found: seq<Occurrence> := [];
    assert [] + Occurrences(remaining) == Occurrences(remaining);
    var m := BalancedVar(remaining);
    while m.Some?
      invariant m == BalancedVar(remaining)
      invariant usedMap.Valid()
      invariant Occurrences(decl.value) == found + Occurrences(remaining)
      invariant usedMap.keys == Dedup(Names(found))
      invariant calls == if collect then CollectedCalls(decl, env, found) else []
      decreases |remaining|
    {
      var call := m.value;
      var o := ParseOccurrence(call.body);
      if collect {
        calls := calls + [CollectedVar(o.name, Usage(env.selectorOf(decl.parent), decl.prop, o.defaultValue))];
      }
      usedMap := usedMap.Put(o.name, true);
      DiscoveryStep(decl, env, found, o);
      ScanStep(decl.value, found, remaining, call);
      found := found + [o];
      remaining := Remainder(call, o.name);
      m := BalancedVar(remaining);
    }
    assert Occurrences(remaining) == [];
    assert Occurrences(decl.value) == found by {
      assert found + [] == found;
    }
    used := usedMap.keys;
  }

  /** Recording one more call extends the name set and the collected calls by that call. */
  lemma DiscoveryStep(decl: Decl, env: Env, found: seq<Occurrence>, o: Occurrence)
    ensures Dedup(Names(found + [o])) ==
      var d := Dedup(Names(found)); if o.name in d then d else d + [o.name]
    ensures CollectedCalls(decl, env, found + [o]) ==
      CollectedCalls(decl, env, found) + [CollectedVar(o.name, Usage(env.selectorOf(decl.parent), decl.prop, o.defaultValue))]
  {
    var ns := Names(found + [o]);
    assert ns[..|found|] == Names(found);
  }

  // ---------------------------------------------------------------------------
  // Cascade selection

  function Lookup(env: Env, name: string): seq<VarDecl> {
    if name in env.vars then env.vars[name] else []
  }

  /** The entry is visible from the declaration being resolved (and `!important` when asked). */
  predicate Qualifies(env: Env, decl: Decl, ignorePseudo: bool, importantOnly: bool, item: VarDecl) {
    env.isNodeUnderScope(decl.parent, item.parent, ignorePseudo) && (!importantOnly || item.isImportant)
  }

  /** The index of the last qualifying entry. */
  function LastQualifying(items: seq<VarDecl>, env: Env, decl: Decl, ignorePseudo: bool, importantOnly: bool): (r: Option<nat>)
    ensures r.Some? ==> r.value < |items| && Qualifies(env, decl, ignorePseudo, importantOnly, items[r.value])
    ensures r.Some? ==> forall j :: r.value < j < |items| ==> !Qualifies(env, decl, ignorePseudo, importantOnly, items[j])
    ensures r.None? ==> forall j :: 0 <= j < |items| ==> !Qualifies(env, decl, ignorePseudo, importantOnly, items[j])
  {
    if items == [] then None
    else if Qualifies(env, decl, ignorePseudo, importantOnly, items[|items| - 1]) then Some(|items| - 1)
    else LastQualifying(items[..|items| - 1], env, decl, ignorePseudo, importantOnly)
  }

  /**
   * The declaration that applies, stated as the cascade rule: the last visible
   * `!important` entry if there is one, otherwise the last visible entry.
   */
  function CascadeWinner(items: seq<VarDecl>, env: Env, decl: Decl, ignorePseudo: bool): Option<VarDecl> {
    match LastQualifying(items, env, decl, ignorePseudo, true)
    case Some(k) => Some(items[k])
    case None =>
      match LastQualifying(items, env, decl, ignorePseudo, false)
      case Some(k) => Some(items[k])
      case None => None
  }

  /** One more entry changes the winner exactly as one step of the source's `forEach` does. */
  lemma {:induction false} CascadeWinnerStep(items: seq<VarDecl>, env: Env, decl: Decl, ignorePseudo: bool, item: VarDecl)
    ensures var best := CascadeWinner(items, env, decl, ignorePseudo);
      CascadeWinner(items + [item], env, decl, ignorePseudo) ==
        if env.isNodeUnderScope(decl.parent, item.parent, ignorePseudo) && (best.None? || !best.value.isImportant || item.isImportant)
        then Some(item) else best
  {
    var all := items + [item];
    assert all[..|items|] == items;
    var imp := LastQualifying(items, env, decl, ignorePseudo, true);
    var any := LastQualifying(items, env, decl, ignorePseudo, false);
    if imp.None? && any.Some? {
      assert !items[any.value].isImportant by {
        assert !Qualifies(env, decl, ignorePseudo, true, items[any.value]);
      }
    }
  }

  /**
   * The `forEach` of `resolveValue` over the map entries of a name: an entry
   * replaces the current match when it is in scope and the match is not
   * `!important` or the entry is. The result is the cascade winner.
   */
  method SelectDeclaration(items: seq<VarDecl>, env: Env, decl: Decl, ignorePseudo: bool) returns (best: Option<VarDecl>)
    ensures best == CascadeWinner(items, env, decl, ignorePseudo)
  {
    best := None;
    for i := 0 to |items|
      invariant best == CascadeWinner(items[..i], env, decl, ignorePseudo)
    {
      var item := items[i];
      CascadeWinnerStep(items[..i], env, decl, ignorePseudo, item);
      assert items[..i + 1] == items[..i] + [item];
      if env.isNodeUnderScope(decl.parent, item.parent, ignorePseudo) && (best.None? || !best.value.isImportant || item.isImportant) {
        best := Some(item);
      }
    }
    assert items[..|items|] == items;
  }

  // ---------------------------------------------------------------------------
  // Resolution, as functions

  /** One substitution of the resolution loop: the call replaced, its name and what replaced it. */
  datatype Step = Step(call: VarCall, name: string, replacement: Option<string>)

  /** The substitutions the loop made on a value and the text it ended with. */
  datatype Trace = Trace(steps: seq<Step>, final: string)

  /** String concatenation turns an undefined replacement into the text `undefined`. */
  function Render(v: Option<string>): string {
    match v
    case None => "undefined"
    case Some(s) => s
  }

  function Substitute(step: Step): string {
    step.call.pre + Render(step.replacement) + step.call.post
  }

  /**
   * `steps` are the substitutions the loop makes starting from `text`: each
   * replaces the call `balancedVar` finds in the current text, and `final` is
   * the first text in which it finds none.
   */
  predicate IsTrace(text: string, steps: seq<Step>, final: string)
    decreases |steps|
  {
    if steps == [] then final == text && BalancedVar(text).None?
    else
      && BalancedVar(text) == Some(steps[0].call)
      && steps[0].name == ParseReference(steps[0].call.body).name
      && IsTrace(Substitute(steps[0]), steps[1..], final)
  }

  function UndefinedMessage(name: string): string {
    "variable " + name + " is undefined and used without a fallback"
  }

  /** The last substitution replaced a call by `undefined`. */
  predicate LastUndefined(steps: seq<Step>) {
    |steps| > 0 && steps[|steps| - 1].replacement.None?
  }

  /** One warning per undefined substitution, in order. */
  function WarningsFor(decl: Decl, steps: seq<Step>): (r: seq<Warning>)
    ensures |r| <= |steps|
    ensures r == [] <==> forall k :: 0 <= k < |steps| ==> steps[k].replacement.Some?
    ensures forall k :: 0 <= k < |r| ==> r[k].node == decl
    ensures LastUndefined(steps) ==> |r| > 0 && r[|r| - 1].message == UndefinedMessage(steps[|steps| - 1].name)
  {
    if steps == [] then []
    else
      var last := steps[|steps| - 1];
      WarningsFor(decl, steps[..|steps| - 1]) + (if last.replacement.None? then [Warning(UndefinedMessage(last.name), decl)] else [])
  }

  /** The value is `undefined` exactly when the last substitution was. */
  function FinalValue(t: Trace): Option<string> {
    if LastUndefined(t.steps) then None else Some(t.final)
  }

  /** What one more substitution adds to the warnings and to the undefined flag. */
  lemma AppendStep(decl: Decl, steps: seq<Step>, step: Step)
    ensures WarningsFor(decl, steps + [step]) ==
      WarningsFor(decl, steps) + (if step.replacement.None? then [Warning(UndefinedMessage(step.name), decl)] else [])
    ensures LastUndefined(steps + [step]) == step.replacement.None?
  {
    assert (steps + [step])[..|steps|] == steps;
  }

  function Truthy(v: Option<string>): bool {
    v.Some? && v.value != []
  }

  /** The clone of a matched declaration spliced under the reference's at-rule context. */
  function Mimic(env: Env, matched: VarDecl, decl: Decl): Decl {
    Decl(matched.decl.prop, matched.decl.value, env.spliceParent(matched.decl, decl))
  }

  function ValueOf(r: Option<Resolution>): Option<Option<string>> {
    match r
    case None => None
    case Some(res) => Some(res.value)
  }

  /**
   * A budget: nested resolutions get one unit less, and a run may make as many
   * substitutions as its resolution has units.
   */
  datatype Fuel = Zero | Succ(pred: Fuel)

  /**
   * The value the source takes before looking at the match's own declaration:
   * a truthy cached value of the match, else the resolved non-empty fallback,
   * else the fallback as written (possibly absent).
   */
  function FallbackValue(decl: Decl, env: Env, ref: Reference, best: Option<VarDecl>, depth: Fuel): (r: Option<Option<string>>)
    decreases depth, 2, depth
  {
    if best.Some? && Truthy(best.value.calculatedInPlaceValue) then Some(best.value.calculatedInPlaceValue)
    else if ref.fallback.Some? && ref.fallback.value != [] then
      ValueOf(Resolve(Decl(decl.prop, ref.fallback.value, decl.parent), env, false, depth))
    else Some(ref.fallback)
  }

  /**
   * The replacement for one reference: the fallback value, superseded by
   * resolving the (spliced) matched declaration when there is a match and no
   * circular or self reference.
   */
  function Replacement(decl: Decl, env: Env, used: seq<string>, ref: Reference, best: Option<VarDecl>, depth: Fuel): (r: Option<Option<string>>)
    decreases depth, 3, depth
  {
    match FallbackValue(decl, env, ref, best, depth)
    case None => None
    case Some(v) =>
      if best.Some? && !env.hasCircularOrSelfReference(used) then
        ValueOf(Resolve(Mimic(env, best.value, decl), env, false, depth))
      else Some(v)
  }

  /**
   * One turn of the loop on `call`: the name it references and the replacement
   * computed from the cascade winner for that name; `None` when a nested
   * resolution runs out of fuel.
   */
  function NextStep(decl: Decl, env: Env, ignorePseudo: bool, used: seq<string>, call: VarCall, depth: Fuel): Option<Step>
    decreases depth, 4, depth
  {
    var ref := ParseReference(call.body);
    match Replacement(decl, env, used, ref, CascadeWinner(Lookup(env, ref.name), env, decl, ignorePseudo), depth)
    case None => None
    case Some(v) => Some(Step(call, ref.name, v))
  }

  /** The resolution loop from `text`, with `left` substitutions still allowed. */
  function Run(decl: Decl, env: Env, ignorePseudo: bool, used: seq<string>, text: string, fuel: Fuel, left: Fuel): (r: Option<Trace>)
    decreases fuel, 0, left
  {
    match BalancedVar(text)
    case None => Some(Trace([], text))
    case Some(call) =>
      if left.Zero? || fuel.Zero? then None
      else
        match NextStep(decl, env, ignorePseudo, used, call, fuel.pred)
        case None => None
        case Some(step) =>
          match Run(decl, env, ignorePseudo, used, Substitute(step), fuel, left.pred)
          case None => None
          case Some(rest) => Some(Trace([step] + rest.steps, rest.final))
  }

  /** A run that finishes records the substitutions the loop makes, ending at a text without a call. */
  lemma {:induction false} RunIsTrace(decl: Decl, env: Env, ignorePseudo: bool, used: seq<string>, text: string, fuel: Fuel, left: Fuel)
    requires Run(decl, env, ignorePseudo, used, text, fuel, left).Some?
    ensures var t := Run(decl, env, ignorePseudo, used, text, fuel, left).value;
      IsTrace(text, t.steps, t.final)
    decreases left
  {
    var call := BalancedVar(text);
    if call.Some? {
      NextStepParts(decl, env, ignorePseudo, used, call.value, fuel.pred);
      var step := NextStep(decl, env, ignorePseudo, used, call.value, fuel.pred).value;
      RunIsTrace(decl, env, ignorePseudo, used, Substitute(step), fuel, left.pred);
      var rest := Run(decl, env, ignorePseudo, used, Substitute(step), fuel, left.pred).value;
      assert Run(decl, env, ignorePseudo, used, text, fuel, left).value == Trace([step] + rest.steps, rest.final);
      TraceCons(text, step, rest.steps, rest.final);
    }
  }

  /** Every step in `steps` is the step computed for its own call at nesting budget `depth`. */
  ghost predicate StepsAreNextSteps(decl: Decl, env: Env, ignorePseudo: bool, used: seq<string>, steps: seq<Step>, depth: Fuel) {
    forall k :: 0 <= k < |steps| ==> NextStep(decl, env, ignorePseudo, used, steps[k].call, depth) == Some(steps[k])
  }

  /** A step computed for its call, put in front of such steps, keeps them all such steps. */
  lemma StepsAreNextStepsCons(decl: Decl, env: Env, ignorePseudo: bool, used: seq<string>, step: Step, rest: seq<Step>, depth: Fuel)
    requires NextStep(decl, env, ignorePseudo, used, step.call, depth) == Some(step)
    requires StepsAreNextSteps(decl, env, ignorePseudo, used, rest, depth)
    ensures StepsAreNextSteps(decl, env, ignorePseudo, used, [step] + rest, depth)
  {
    var steps := [step] + rest;
    forall k | 0 < k < |steps|
      ensures NextStep(decl, env, ignorePseudo, used, steps[k].call, depth) == Some(steps[k])
    {
      assert steps[k] == rest[k - 1];
    }
  }

  /**
   * Each substitution of a finished run puts in the replacement the loop
   * computes for its call: the value of the cascade winner for the name the
   * call references, or the call's fallback.
   */
  lemma {:induction false} RunStepsAreNextSteps(decl: Decl, env: Env, ignorePseudo: bool, used: seq<string>, text: string, fuel: Fuel, left: Fuel)
    requires Run(decl, env, ignorePseudo, used, text, fuel, left).Some?
    ensures var t := Run(decl, env, ignorePseudo, used, text, fuel, left).value;
      t.steps == [] || (fuel.Succ? && StepsAreNextSteps(decl, env, ignorePseudo, used, t.steps, fuel.pred))
    decreases left
  {
    var call := BalancedVar(text);
    if call.Some? {
      NextStepParts(decl, env, ignorePseudo, used, call.value, fuel.pred);
      var step := NextStep(decl, env, ignorePseudo, used, call.value, fuel.pred).value;
      RunStepsAreNextSteps(decl, env, ignorePseudo, used, Substitute(step), fuel, left.pred);
      var rest := Run(decl, env, ignorePseudo, used, Substitute(step), fuel, left.pred).value;
      assert Run(decl, env, ignorePseudo, used, text, fuel, left).value.steps == [step] + rest.steps;
      StepsAreNextStepsCons(decl, env, ignorePseudo, used, step, rest.steps, fuel.pred);
    }
  }


  /** The step taken on a call replaces that call and names what it references. */
  lemma NextStepParts(decl: Decl, env: Env, ignorePseudo: bool, used: seq<string>, call: VarCall, depth: Fuel)
    requires NextStep(decl, env, ignorePseudo, used, call, depth).Some?
    ensures var step := NextStep(decl, env, ignorePseudo, used, call, depth).value;
      step.call == call && step.name == ParseReference(call.body).name
  {
  }

  /** A trace extended at the front by the step on the text's first call. */
  lemma TraceCons(text: string, step: Step, steps: seq<Step>, final: string)
    requires BalancedVar(text) == Some(step.call) && step.name == ParseReference(step.call.body).name
    requires IsTrace(Substitute(step), steps, final)
    ensures IsTrace(text, [step] + steps, final)
  {
    assert ([step] + steps)[1..] == steps;
  }

  /** `resolveValue(decl, map, {ignorePseudoScope})` within the given budget. */
  function Resolve(decl: Decl, env: Env, ignorePseudo: bool, fuel: Fuel): (r: Option<Resolution>)
    decreases fuel, 1, fuel
  {
    var used := VariablesUsed(decl.value);
    match Run(decl, env, ignorePseudo, used, decl.value, fuel, fuel)
    case None => None
    case Some(t) => Some(Resolution(FinalValue(t), used, WarningsFor(decl, t.steps)))
  }

  // ---------------------------------------------------------------------------
  // Resolution, as the source computes it

  /** Put `steps` in front of a run's trace; a run out of fuel stays out of fuel. */
  function Prepend(steps: seq<Step>, r: Option<Trace>): Option<Trace> {
    match r
    case None => None
    case Some(t) => Some(Trace(steps + t.steps, t.final))
  }

  lemma PrependNothing(r: Option<Trace>)
    ensures Prepend([], r) == r
  {
    if r.Some? {
      assert [] + r.value.steps == r.value.steps;
    }
  }

  lemma PrependTwice(a: seq<Step>, b: seq<Step>, r: Option<Trace>)
    ensures Prepend(a, Prepend(b, r)) == Prepend(a + b, r)
  {
    if r.Some? {
      assert a + (b + r.value.steps) == (a + b) + r.value.steps;
    }
  }

  /** One turn of the loop: the run from `text` is the step taken followed by the run from the new text. */
  lemma RunStep(decl: Decl, env: Env, ignorePseudo: bool, used: seq<string>, text: string, fuel: Fuel, left: Fuel, call: VarCall, step: Step)
    requires left.Succ? && fuel.Succ?
    requires BalancedVar(text) == Some(call)
    requires NextStep(decl, env, ignorePseudo, used, call, fuel.pred) == Some(step)
    ensures Run(decl, env, ignorePseudo, used, text, fuel, left) ==
      Prepend([step], Run(decl, env, ignorePseudo, used, Substitute(step), fuel, left.pred))
  {
  }

  /** The loop's invariant survives one substitution. */
  lemma RunAdvances(decl: Decl, env: Env, ignorePseudo: bool, used: seq<string>, whole: Option<Trace>, steps: seq<Step>,
                    text: string, fuel: Fuel, left: Fuel, call: VarCall, step: Step)
    requires whole == Prepend(steps, Run(decl, env, ignorePseudo, used, text, fuel, left))
    requires left.Succ? && fuel.Succ?
    requires BalancedVar(text) == Some(call)
    requires NextStep(decl, env, ignorePseudo, used, call, fuel.pred) == Some(step)
    ensures whole == Prepend(steps + [step], Run(decl, env, ignorePseudo, used, Substitute(step), fuel, left.pred))
  {
    RunStep(decl, env, ignorePseudo, used, text, fuel, left, call, step);
    PrependTwice(steps, [step], Run(decl, env, ignorePseudo, used, Substitute(step), fuel, left.pred));
  }

  /** With no budget left, a run that meets a call is out of fuel. */
  lemma RunExhausted(decl: Decl, env: Env, ignorePseudo: bool, used: seq<string>, text: string, fuel: Fuel, left: Fuel)
    requires BalancedVar(text).Some? && (left.Zero? || fuel.Zero?)
    ensures Run(decl, env, ignorePseudo, used, text, fuel, left).None?
  {
  }

  /** A run out of fuel in a nested resolution is out of fuel as a whole. */
  lemma RunNested(decl: Decl, env: Env, ignorePseudo: bool, used: seq<string>, text: string, fuel: Fuel, left: Fuel, call: VarCall)
    requires left.Succ? && fuel.Succ?
    requires BalancedVar(text) == Some(call)
    requires NextStep(decl, env, ignorePseudo, used, call, fuel.pred).None?
    ensures Run(decl, env, ignorePseudo, used, text, fuel, left).None?
  {
  }

  /** How `Resolve` reads off the run of the whole value. */
  lemma ResolveFromRun(decl: Decl, env: Env, ignorePseudo: bool, fuel: Fuel, r: Option<Trace>)
    requires r == Run(decl, env, ignorePseudo, VariablesUsed(decl.value), decl.value, fuel, fuel)
    ensures r.None? ==> Resolve(decl, env, ignorePseudo, fuel).None?
    ensures r.Some? ==>
      Resolve(decl, env, ignorePseudo, fuel) ==
      Some(Resolution(FinalValue(r.value), VariablesUsed(decl.value), WarningsFor(decl, r.value.steps)))
  {
  }

  /**
   * The replacement the loop body computes for one reference: the cached value
   * or the resolved fallback, then the resolved (spliced) match when there is
   * one and no circular or self reference. `None` only when a nested
   * resolution ran out of fuel.
   */
  method ReplacementValue(decl: Decl, env: Env, used: seq<string>, ref: Reference, best: Option<VarDecl>, fuel: Fuel) returns (v: Option<Option<string>>)
    requires fuel.Succ?
    decreases fuel, 1
    ensures v == Replacement(decl, env, used, ref, best, fuel.pred)
  {
    v := FallbackValueOf(decl, env, ref, best, fuel);
    if v.Some? && best.Some? && !env.hasCircularOrSelfReference(used) {
      var inner, _ := ResolveValue(Mimic(env, best.value, decl), env, Options(false, false), fuel.pred);
      v := ValueOf(inner);
    }
  }

  method FallbackValueOf(decl: Decl, env: Env, ref: Reference, best: Option<VarDecl>, fuel: Fuel) returns (v: Option<Option<string>>)
    requires fuel.Succ?
    decreases fuel, 0
    ensures v == FallbackValue(decl, env, ref, best, fuel.pred)
  {
    if best.Some? && Truthy(best.value.calculatedInPlaceValue) {
      v := Some(best.value.calculatedInPlaceValue);
    } else if ref.fallback.Some? && ref.fallback.value != [] {
      var inner, _ := ResolveValue(Decl(decl.prop, ref.fallback.value, decl.parent), env, Options(false, false), fuel.pred);
      v := ValueOf(inner);
    } else {
      v := Some(ref.fallback);
    }
  }

  /**
   * `resolveValue`: collect the names used, then repeatedly replace the first
   * balanced `var()` call by its replacement, warning for each undefined one.
   * The result is the one `Resolve` describes, and the calls handed to
   * `collectVar` are those of the value's own references.
   */
  method ResolveValue(decl: Decl, env: Env, opts: Options, fuel: Fuel) returns (r: Option<Resolution>, calls: seq<CollectedVar>)
    decreases fuel, 2
    ensures r == Resolve(decl, env, opts.ignorePseudoScope, fuel)
    ensures calls == if opts.collectVar then CollectedCalls(decl, env, Occurrences(decl.value)) else []
  {
    var used;
    used, calls := DiscoverVariables(decl, env, opts.collectVar);
    var ignorePseudo := opts.ignorePseudoScope;
    var resultant := decl.value;
    var warnings: seq<Warning> := [];
    var isUndefined := false;
    var left := fuel;
    var exhausted := false;
    ghost var steps: seq<Step> := [];
    ghost var whole := Run(decl, env, ignorePseudo, used, decl.value, fuel, fuel);
    PrependNothing(whole);
    var m := BalancedVar(resultant);
    while m.Some? && !exhausted
      invariant m == BalancedVar(resultant)
      invariant exhausted ==> whole.None?
      invariant !exhausted ==> whole == Prepend(steps, Run(decl, env, ignorePseudo, used, resultant, fuel, left))
      invariant warnings == WarningsFor(decl, steps)
      invariant isUndefined == LastUndefined(steps)
      decreases left, if exhausted then 0 else 1
    {
      if left.Zero? || fuel.Zero? {
        RunExhausted(decl, env, ignorePseudo, used, resultant, fuel, left);
        exhausted := true;
      } else {
        var call := m.value;
        var ref := ParseReference(call.body);
        var best := SelectDeclaration(Lookup(env, ref.name), env, decl, ignorePseudo);
        var replacement := ReplacementValue(decl, env, used, ref, best, fuel);
        if replacement.None? {
          assert NextStep(decl, env, ignorePseudo, used, call, fuel.pred).None?;
          RunNested(decl, env, ignorePseudo, used, resultant, fuel, left, call);
          exhausted := true;
        } else {
          var replaceValue := replacement.value;
          var step := Step(call, ref.name, replaceValue);
          assert NextStep(decl, env, ignorePseudo, used, call, fuel.pred) == Some(step);
          RunAdvances(decl, env, ignorePseudo, used, whole, steps, resultant, fuel, left, call, step);
          AppendStep(decl, steps, step);
          isUndefined := replaceValue.None?;
          if isUndefined {
            warnings := warnings + [Warning(UndefinedMessage(ref.name), decl)];
          }
          steps := steps + [step];
          resultant := call.pre + Render(replaceValue) + call.post;
          left := left.pred;
          m := BalancedVar(resultant);
        }
      }
    }
    ResolveFromRun(decl, env, ignorePseudo, fuel, whole);
    if exhausted {
      r := None;
    } else {
      assert steps + [] == steps;
      r := Some(Resolution(if isUndefined then None else Some(resultant), used, warnings));
    }
  }

  // ---------------------------------------------------------------------------
  // Properties of a resolution

  /** A value without a `var()` call resolves to itself, uses no variable and warns about nothing. */
  lemma NoReferenceKeepsValue(decl: Decl, env: Env, ignorePseudo: bool, fuel: Fuel)
    requires !HasVarCall(decl.value)
    ensures Resolve(decl, env, ignorePseudo, fuel) == Some(Resolution(Some(decl.value), [], []))
  {
    VarCallFoundIff(decl.value);
    assert Occurrences(decl.value) == [];
    assert Names([]) == [];
  }

  /** The loop stops at the first text without a call. */
  lemma {:induction false} TraceEndsWithoutCall(text: string, steps: seq<Step>, final: string)
    requires IsTrace(text, steps, final)
    ensures BalancedVar(final).None? && !HasVarCall(final)
    decreases |steps|
  {
    if steps != [] {
      TraceEndsWithoutCall(Substitute(steps[0]), steps[1..], final);
    } else {
      VarCallFoundIff(final);
    }
  }

  /** A defined result holds no `var()` call any more. */
  lemma ResolvedValueHasNoCall(decl: Decl, env: Env, ignorePseudo: bool, fuel: Fuel, res: Resolution)
    requires Resolve(decl, env, ignorePseudo, fuel) == Some(res)
    requires res.value.Some?
    ensures BalancedVar(res.value.value).None? && !HasVarCall(res.value.value)
  {
    var t := Run(decl, env, ignorePseudo, VariablesUsed(decl.value), decl.value, fuel, fuel).value;
    RunIsTrace(decl, env, ignorePseudo, VariablesUsed(decl.value), decl.value, fuel, fuel);
    TraceEndsWithoutCall(decl.value, t.steps, t.final);
  }

  /**
   * An undefined result comes with a warning about the last reference
   * substituted, and a result without warnings is defined. Every warning is
   * about the declaration being resolved.
   */
  lemma UndefinedIsWarned(decl: Decl, env: Env, ignorePseudo: bool, fuel: Fuel, res: Resolution)
    requires Resolve(decl, env, ignorePseudo, fuel) == Some(res)
    ensures res.value.None? ==> |res.warnings| > 0
    ensures res.warnings == [] ==> res.value.Some?
    ensures forall k :: 0 <= k < |res.warnings| ==> res.warnings[k].node == decl
  {
  }

  /**
   * `variablesUsed` names each variable referenced directly in the value once,
   * in the order of first reference.
   */
  lemma VariablesUsedInOrder(decl: Decl, env: Env, ignorePseudo: bool, fuel: Fuel, res: Resolution)
    requires Resolve(decl, env, ignorePseudo, fuel) == Some(res)
    ensures Distinct(res.variablesUsed)
    ensures forall n :: n in res.variablesUsed <==> n in Names(Occurrences(decl.value))
    ensures forall i, j :: 0 <= i < j < |res.variablesUsed| ==>
      FirstIndex(Names(Occurrences(decl.value)), res.variablesUsed[i]) < FirstIndex(Names(Occurrences(decl.value)), res.variablesUsed[j])
  {
    DedupFirstSeenOrder(Names(Occurrences(decl.value)));
  }

  /**
   * Precedence of the sources of a replacement: a usable match (one with no
   * circular or self reference among the names used) is resolved and wins;
   * otherwise a truthy cached value wins over the fallback, a non-empty
   * fallback is resolved, and an absent fallback gives `undefined`.
   */
  lemma ReplacementPrecedence(decl: Decl, env: Env, used: seq<string>, ref: Reference, best: Option<VarDecl>, depth: Fuel)
    ensures best.Some? && !env.hasCircularOrSelfReference(used) && FallbackValue(decl, env, ref, best, depth).Some? ==>
      Replacement(decl, env, used, ref, best, depth) == ValueOf(Resolve(Mimic(env, best.value, decl), env, false, depth))
    ensures (best.None? || env.hasCircularOrSelfReference(used)) && best.Some? && Truthy(best.value.calculatedInPlaceValue) ==>
      Replacement(decl, env, used, ref, best, depth) == Some(best.value.calculatedInPlaceValue)
    ensures (best.None? || env.hasCircularOrSelfReference(used)) && ref.fallback.None? ==>
      Replacement(decl, env, used, ref, best, depth) == if best.Some? && Truthy(best.value.calculatedInPlaceValue)
        then Some(best.value.calculatedInPlaceValue) else Some(None)
  {
  }

  /**
   * The cascade: the winner is visible from the declaration; it is the last
   * visible `!important` entry when there is one and the last visible entry
   * otherwise; there is no winner exactly when no entry is visible.
   */
  lemma CascadeWinnerIsLastVisible(items: seq<VarDecl>, env: Env, decl: Decl, ignorePseudo: bool)
    ensures var w := CascadeWinner(items, env, decl, ignorePseudo);
      w.None? <==> forall j :: 0 <= j < |items| ==> !Qualifies(env, decl, ignorePseudo, false, items[j])
    ensures var w := CascadeWinner(items, env, decl, ignorePseudo);
      w.Some? ==> w.value in items && Qualifies(env, decl, ignorePseudo, false, w.value)
    ensures var w := CascadeWinner(items, env, decl, ignorePseudo);
      (exists j :: 0 <= j < |items| && Qualifies(env, decl, ignorePseudo, true, items[j])) ==> w.Some? && w.value.isImportant
  {
    var imp := LastQualifying(items, env, decl, ignorePseudo, true);
    var any := LastQualifying(items, env, decl, ignorePseudo, false);
    if imp.Some? {
      assert Qualifies(env, decl, ignorePseudo, false, items[imp.value]);
    }
  }
}
