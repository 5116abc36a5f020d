/** The event stage: binding values with their expressions replaced by event values, laid over
    the template's defaults.  JSONPath evaluation of one expression against the event is the
    parameter `eval`; a failed evaluation is `None`. */
module Bindings {
  import opened Text
  import opened Wrappers
  import opened Substitution
  import opened Scanner

  datatype Param = Param(name: string, value: string)

  datatype ParamSpec = ParamSpec(name: string, defaultValue: Option<string>)

  type Evaluator = string -> Option<string>

  /** Template parameters that declare a default; a later declaration of a name wins. */
  function DefaultsOf(specs: seq<ParamSpec>): map<string, string> {
    if specs == [] then map[]
    else
      var before := DefaultsOf(specs[..|specs| - 1]);
      var last := specs[|specs| - 1];
      if last.defaultValue.Some? then before[last.name := last.defaultValue.value] else before
  }

  /** What one expression contributes: its event value, or the fallback when there is none. */
  function Contribution(original: string, eval: Evaluator, fallback: Option<string>): Option<string>
    requires |original| >= 3
  {
    var v := eval(ExpressionOf(original));
    if v.Some? then v else fallback
  }

  predicate Originals(os: seq<string>) {
    forall k :: 0 <= k < |os| ==> |os[k]| >= 3
  }

  /** The rewrites one binding value goes through, unless some expression has no value. */
  function StepsFor(originals: seq<string>, eval: Evaluator, fallback: Option<string>): Option<seq<Rewrite>>
    requires Originals(originals)
  {
    if exists k :: 0 <= k < |originals| && Contribution(originals[k], eval, fallback).None? then None
    else Some(seq(|originals|, k requires 0 <= k < |originals| =>
      Rewrite(originals[k], Contribution(originals[k], eval, fallback).value)))
  }

  lemma OriginalsLong(text: string)
    ensures Originals(OriginalsFrom(text, 0))
  {
    forall k | 0 <= k < |OriginalsFrom(text, 0)| ensures |OriginalsFrom(text, 0)[k]| >= 3 {
      var b := OriginalsAreWraps(text, OriginalsFrom(text, 0)[k]);
    }
  }

  /** One binding value after the whole replacement loop. */
  ghost function ResolveValue(text: string, eval: Evaluator, fallback: Option<string>): Option<string> {
    OriginalsLong(text);
    var steps := StepsFor(OriginalsFrom(text, 0), eval, fallback);
    if steps.None? then None else Some(ApplySeq(text, steps.value))
  }

  /** The value a failed expression of parameter `name` falls back to. */
  function Fallback(name: string, declared: bool, values: map<string, string>): Option<string> {
    if declared && name in values then Some(values[name]) else None
  }

  /** All parameters, bindings laid over the defaults in order. */
  ghost function ResolveAll(params: seq<Param>, declared: bool, defaults: map<string, string>, eval: Evaluator)
    : Option<map<string, string>>
  {
    if params == [] then Some(defaults)
    else
      var p := params[|params| - 1];
      var before := ResolveAll(params[..|params| - 1], declared, defaults, eval);
      if before.None? then None
      else
        var v := ResolveValue(p.value, eval, Fallback(p.name, declared, before.value));
        if v.None? then None else Some(before.value[p.name := v.value])
  }

  // ---- The loops ---------------------------------------------------------------------

  /** `specs` is `None` where the source has a nil list: then no expression may fall back. */
  method ApplyEventValuesToParams(params: seq<Param>, specs: Option<seq<ParamSpec>>, eventParses: bool, eval: Evaluator)
    returns (r: Result<map<string, string>>)
    ensures r.Ok? <==> eventParses && ResolveAll(params, specs.Some?, SpecDefaults(specs), eval).Some?
    ensures r.Ok? ==> ResolveAll(params, specs.Some?, SpecDefaults(specs), eval) == Some(r.value)
  {
    hide ResolveValue;
    if !eventParses { return Err("failed to marshal event"); }
    var values: map<string, string> := map[];
    if specs.Some? {
      values := LoadDefaults(specs.value);
    }
    var n := 0;
    while n < |params|
      invariant 0 <= n <= |params|
      invariant ResolveAll(params[..n], specs.Some?, SpecDefaults(specs), eval) == Some(values)
    {
      var p := params[n];
      var resolved := ResolveParam(p, specs.Some?, values, eval);
      assert params[..n + 1][..n] == params[..n];
      if resolved.None? {
        ResolveAllFails(params, n + 1, specs.Some?, SpecDefaults(specs), eval);
        return Err("failed to replace JSONPath value for param " + p.name);
      }
      values := values[p.name := resolved.value];
      n := n + 1;
    }
    assert params[..n] == params;
    return Ok(values);
  }

  function SpecDefaults(specs: Option<seq<ParamSpec>>): map<string, string> {
    if specs.None? then map[] else DefaultsOf(specs.value)
  }

  method LoadDefaults(specs: seq<ParamSpec>) returns (values: map<string, string>)
    ensures values == DefaultsOf(specs)
  {
    values := map[];
    var n := 0;
    while n < |specs|
      invariant 0 <= n <= |specs| && values == DefaultsOf(specs[..n])
    {
      assert specs[..n + 1][..n] == specs[..n];
      if specs[n].defaultValue.Some? {
        values := values[specs[n].name := specs[n].defaultValue.value];
      }
      n := n + 1;
    }
    assert specs[..n] == specs;
  }

  /** The inner loop: each expression evaluated and spliced into the same string. */
  method ResolveParam(p: Param, declared: bool, values: map<string, string>, eval: Evaluator)
    returns (r: Option<string>)
    ensures r == ResolveValue(p.value, eval, Fallback(p.name, declared, values))
  {
    var text := p.value;
    var expressions, originals := FindTektonExpressions(p.value);
    OriginalsLong(p.value);
    ghost var fallback := Fallback(p.name, declared, values);
    ghost var steps: seq<Rewrite> := [];
    ApplyNone(text);
    assert StepsSoFar(steps, originals, eval, fallback);
    hide ApplySeq, ReplaceAll, OriginalsFrom, StepsSoFar;
    var i := 0;
    while i < |expressions|
      invariant 0 <= i <= |expressions| && |steps| == i
      invariant StepsSoFar(steps, originals, eval, fallback)
      invariant text == ApplySeq(p.value, steps)
    {
      var val := eval(expressions[i]);
      if declared && val.None? && p.name in values {
        val := Some(values[p.name]);
      }
      assert val == Contribution(originals[i], eval, fallback);
      if val.None? {
        return None;
      }
      StepsMore(steps, originals, eval, fallback);
      ApplyOneMore(p.value, steps, Rewrite(originals[i], val.value));
      text := ReplaceAll(text, originals[i], val.value);
      steps := steps + [Rewrite(originals[i], val.value)];
      i := i + 1;
    }
    StepsDone(steps, originals, eval, fallback);
    return Some(text);
  }

  lemma StepsMore(steps: seq<Rewrite>, originals: seq<string>, eval: Evaluator, fallback: Option<string>)
    requires Originals(originals) && StepsSoFar(steps, originals, eval, fallback) && |steps| < |originals|
    requires Contribution(originals[|steps|], eval, fallback).Some?
    ensures forall k :: 0 <= k < |steps| ==> steps[k].token != ""
    ensures var o := originals[|steps|];
      o != "" && StepsSoFar(steps + [Rewrite(o, Contribution(o, eval, fallback).value)], originals, eval, fallback)
  {
    hide Contribution;
    var n := |steps|;
    var more := steps + [Rewrite(originals[n], Contribution(originals[n], eval, fallback).value)];
    assert forall k :: 0 <= k < n ==> more[k] == steps[k];
  }

  lemma StepsDone(steps: seq<Rewrite>, originals: seq<string>, eval: Evaluator, fallback: Option<string>)
    requires Originals(originals) && StepsSoFar(steps, originals, eval, fallback) && |steps| == |originals|
    ensures StepsFor(originals, eval, fallback) == Some(steps)
  {
    var all := StepsFor(originals, eval, fallback).value;
    assert forall k :: 0 <= k < |steps| ==> all[k] == steps[k];
    assert all == steps;
  }

  ghost predicate StepsSoFar(steps: seq<Rewrite>, originals: seq<string>, eval: Evaluator, fallback: Option<string>)
    requires Originals(originals)
  {
    && |steps| <= |originals|
    && forall k :: 0 <= k < |steps| ==>
      steps[k].token == originals[k] && steps[k].token != "" &&
        Contribution(originals[k], eval, fallback) == Some(steps[k].value)
  }

  lemma {:induction false} ResolveAllFails(params: seq<Param>, n: nat, declared: bool, defaults: map<string, string>,
                                           eval: Evaluator)
    requires n <= |params| && ResolveAll(params[..n], declared, defaults, eval).None?
    ensures ResolveAll(params, declared, defaults, eval).None?
    decreases |params|
  {
    hide ResolveValue, Fallback;
    if n == |params| {
      assert params[..n] == params;
    } else {
      var m := |params| - 1;
      assert params[..m][..n] == params[..n];
      ResolveAllFails(params[..m], n, declared, defaults, eval);
    }
  }

  // ---- What the loops compute --------------------------------------------------------

  /** The rewrites a binding value goes through, in the order of the text. */
  ghost function EventSteps(text: string, eval: Evaluator, fallback: Option<string>): seq<Rewrite>
    requires ResolveValue(text, eval, fallback).Some?
  {
    OriginalsLong(text);
    StepsFor(OriginalsFrom(text, 0), eval, fallback).value
  }

  /** The value of every expression of a binding value, as one map. */
  ghost function EventValues(text: string, eval: Evaluator, fallback: Option<string>): map<string, string>
    requires ResolveValue(text, eval, fallback).Some?
  {
    FirstWins(EventSteps(text, eval, fallback))
  }

  /** That map is exactly: each expression of the text, to what it contributes. */
  lemma {:induction false} EventValuesExact(text: string, eval: Evaluator, fallback: Option<string>)
    requires ResolveValue(text, eval, fallback).Some?
    ensures forall o :: o in EventValues(text, eval, fallback) <==> o in OriginalsFrom(text, 0)
    ensures forall o :: o in EventValues(text, eval, fallback) ==>
      |o| >= 3 && Contribution(o, eval, fallback) == Some(EventValues(text, eval, fallback)[o])
  {
    OriginalsLong(text);
    var os := OriginalsFrom(text, 0);
    var steps := StepsFor(os, eval, fallback).value;
    hide OriginalsFrom;
    hide FirstWins;
    hide ApplySeq;
    StepsTokens(os, steps, eval, fallback);
    forall o | o in FirstWins(steps)
      ensures |o| >= 3 && Contribution(o, eval, fallback) == Some(FirstWins(steps)[o])
    {
      var k := FirstWinsFrom(steps, o);
    }
  }

  lemma StepsTokens(os: seq<string>, steps: seq<Rewrite>, eval: Evaluator, fallback: Option<string>)
    requires Originals(os) && StepsFor(os, eval, fallback) == Some(steps)
    ensures forall o :: o in FirstWins(steps) <==> o in os
  {
    forall o | o in os ensures o in FirstWins(steps) {
      var k :| 0 <= k < |os| && os[k] == o;
      assert steps[k].token == o;
    }
  }

  /** The replacement loop over one binding value means simultaneous substitution, for any text
      and any values that cannot feed an expression replaced after them. */
  lemma BindingValueMeaning(text: string, eval: Evaluator, fallback: Option<string>)
    requires ResolveValue(text, eval, fallback).Some?
    requires SafeText(text, EventValues(text, eval, fallback).Keys)
    requires SafeOrder(EventSteps(text, eval, fallback))
    ensures var values := EventValues(text, eval, fallback);
      "" !in values && ResolveValue(text, eval, fallback) == Some(Simultaneous(text, values))
  {
    hide OriginalsFrom, ApplySeq, FirstWins, IsToken, Compatible, SafeValue, SafeText, Simultaneous;
    OriginalsLong(text);
    OriginalsFit(text);
    var os := OriginalsFrom(text, 0);
    var steps := EventSteps(text, eval, fallback);
    EventValuesExact(text, eval, fallback);
    assert |steps| == |os| && forall k :: 0 <= k < |steps| ==> steps[k].token == os[k];
    FitSteps(os, steps);
    hide StepsFor, Contribution, SafeOrder, ValidSteps;
    SequentialIsSimultaneous(text, steps);
  }

  lemma FitSteps(os: seq<string>, steps: seq<Rewrite>)
    requires |steps| == |os| && forall k :: 0 <= k < |steps| ==> steps[k].token == os[k]
    requires (forall o :: o in os ==> IsToken(o)) && forall o, o' :: o in os && o' in os ==> Compatible(o, o')
    ensures ValidSteps(steps)
  {
    hide IsToken, Compatible;
    forall k | 0 <= k < |steps| ensures IsToken(steps[k].token) { assert os[k] in os; }
    forall j, k | 0 <= j < |steps| && 0 <= k < |steps| ensures Compatible(steps[j].token, steps[k].token) {
      assert os[j] in os && os[k] in os;
    }
  }

  /** Every step is an original with its entry in the map of values. */
  lemma StepInValues(text: string, eval: Evaluator, fallback: Option<string>, k: nat)
    requires ResolveValue(text, eval, fallback).Some? && k < |EventSteps(text, eval, fallback)|
    ensures var values, step := EventValues(text, eval, fallback), EventSteps(text, eval, fallback)[k];
      step.token in values && values[step.token] == step.value && step.token in OriginalsFrom(text, 0)
  {
    hide OriginalsFrom, FirstWins, ApplySeq, Contribution;
    OriginalsLong(text);
    var os := OriginalsFrom(text, 0);
    assert os[k] in os;
    EventValuesExact(text, eval, fallback);
  }

  /** The same from conditions that can be read off: the value passed admission, no `$` stands
      before an expression, and no event value holds `$(` or ends in `$`.  An unterminated tail
      and repeated expressions are allowed. */
  lemma AdmittedValueMeaning(text: string, eval: Evaluator, fallback: Option<string>)
    requires ResolveValue(text, eval, fallback).Some?
    requires Validated(text) && NoDollarBeforeExpr(text)
    requires forall o :: o in EventValues(text, eval, fallback) ==> CleanValue(EventValues(text, eval, fallback)[o])
    ensures var values := EventValues(text, eval, fallback);
      "" !in values && ResolveValue(text, eval, fallback) == Some(Simultaneous(text, values))
  {
    var values := EventValues(text, eval, fallback);
    EventValuesExact(text, eval, fallback);
    OriginalsFit(text);
    forall o | o in values ensures IsExpression(o) { var b := OriginalsAreWraps(text, o); }
    ValidatedIsSafe(text, values.Keys);
    var steps := EventSteps(text, eval, fallback);
    hide OriginalsFrom, EventValues, EventSteps, ResolveValue, CleanValue, IsToken, SafeValue;
    forall j, k | 0 <= j < k < |steps| ensures SafeValue(steps[j].value, steps[k].token) {
      StepInValues(text, eval, fallback, j);
      StepInValues(text, eval, fallback, k);
      CleanGivesSafe(steps[j].value, steps[k].token);
    }
    BindingValueMeaning(text, eval, fallback);
  }

  lemma CleanGivesSafe(v: string, m: string)
    requires CleanValue(v) && IsToken(m)
    ensures SafeValue(v, m)
  {
    CleanIsSafe(v, m);
  }

  /** No `$(` inside, no `$` at the end. */
  predicate CleanValue(v: string) {
    (forall i :: 0 <= i < |v| ==> !OpensAt(v, i)) && (v != "" ==> v[|v| - 1] != '$')
  }

  // ---- The parameter map -------------------------------------------------------------

  predicate DistinctNames(params: seq<Param>) {
    forall j, k :: 0 <= j < k < |params| ==> params[j].name != params[k].name
  }

  /** A name no binding mentions is in the map exactly when it has a default, and keeps it. */
  lemma {:induction false} UnboundParam(params: seq<Param>, declared: bool, defaults: map<string, string>,
                                        eval: Evaluator, name: string)
    requires ResolveAll(params, declared, defaults, eval).Some?
    requires forall k :: 0 <= k < |params| ==> params[k].name != name
    ensures var m := ResolveAll(params, declared, defaults, eval).value;
      (name in m <==> name in defaults) && (name in defaults ==> m[name] == defaults[name])
    decreases |params|
  {
    if params != [] {
      UnboundParam(params[..|params| - 1], declared, defaults, eval, name);
    }
  }

  /** The map holds exactly the names that have a default or are bound. */
  lemma {:induction false} ParamMapNames(params: seq<Param>, declared: bool, defaults: map<string, string>,
                                         eval: Evaluator, name: string)
    requires ResolveAll(params, declared, defaults, eval).Some?
    ensures name in ResolveAll(params, declared, defaults, eval).value <==>
      name in defaults || exists k :: 0 <= k < |params| && params[k].name == name
    decreases |params|
  {
    hide ResolveValue;
    if params != [] {
      var n := |params| - 1;
      ParamMapNames(params[..n], declared, defaults, eval, name);
      assert forall k :: 0 <= k < n ==> params[..n][k] == params[k];
      assert name == params[n].name ==> exists k :: 0 <= k < |params| && params[k].name == name;
    }
  }

  lemma {:induction false} DefaultsNames(specs: seq<ParamSpec>, name: string)
    ensures name in DefaultsOf(specs) <==>
      exists d :: 0 <= d < |specs| && specs[d].name == name && specs[d].defaultValue.Some?
    decreases |specs|
  {
    if specs != [] {
      var n := |specs| - 1;
      DefaultsNames(specs[..n], name);
      assert forall d :: 0 <= d < n ==> specs[..n][d] == specs[d];
    }
  }

  /** A bound name has its own resolved value, default or not, and with distinct binding names a
      failed expression falls back only to that name's declared default. */
  lemma {:induction false} BoundParam(params: seq<Param>, declared: bool, defaults: map<string, string>,
                                      eval: Evaluator, k: nat)
    requires DistinctNames(params) && ResolveAll(params, declared, defaults, eval).Some? && k < |params|
    ensures var m := ResolveAll(params, declared, defaults, eval).value;
      && params[k].name in m
      && ResolveValue(params[k].value, eval, Fallback(params[k].name, declared, defaults)) == Some(m[params[k].name])
    decreases |params|
  {
    var n := |params| - 1;
    var before := params[..n];
    if k < n {
      BoundParam(before, declared, defaults, eval, k);
    } else {
      UnboundParam(before, declared, defaults, eval, params[n].name);
    }
  }

  // ---- Told from the event and the defaults alone ------------------------------------

  /** An expression has the event's own value, when there is one; else the fallback. */
  ghost predicate ValueOf(text: string, eval: Evaluator, fallback: Option<string>, o: string)
    requires ResolveValue(text, eval, fallback).Some?
  {
    var values := EventValues(text, eval, fallback);
    && |o| >= 3 && o in values
    && (eval(ExpressionOf(o)).Some? ==> values[o] == eval(ExpressionOf(o)).value)
    && (eval(ExpressionOf(o)).None? ==> fallback == Some(values[o]))
  }

  lemma EventValueWins(text: string, eval: Evaluator, fallback: Option<string>, o: string)
    requires ResolveValue(text, eval, fallback).Some? && o in OriginalsFrom(text, 0)
    ensures ValueOf(text, eval, fallback, o)
  {
    hide ResolveValue, EventValues, OriginalsFrom, ExpressionOf;
    EventValuesExact(text, eval, fallback);
  }

  /** Whether the event, or else the fallback, has a value for an expression. */
  predicate HasValue(o: string, eval: Evaluator, fallback: Option<string>) {
    |o| >= 3 ==> eval(ExpressionOf(o)).Some? || fallback.Some?
  }

  /** A text resolves exactly when every expression has a value or there is a fallback. */
  lemma ResolveValueExact(text: string, eval: Evaluator, fallback: Option<string>)
    ensures ResolveValue(text, eval, fallback).Some? <==>
      forall o :: o in OriginalsFrom(text, 0) ==> HasValue(o, eval, fallback)
  {
    OriginalsLong(text);
    var os := OriginalsFrom(text, 0);
    hide OriginalsFrom, ApplySeq, ExpressionOf;
    assert forall k :: 0 <= k < |os| ==> os[k] in os;
    assert forall k :: 0 <= k < |os| ==>
      (HasValue(os[k], eval, fallback) <==> Contribution(os[k], eval, fallback).Some?);
  }

  /** What a failed expression of a name may fall back to: its declared default. */
  function DefaultFor(name: string, declared: bool, defaults: map<string, string>): Option<string> {
    if declared && name in defaults then Some(defaults[name]) else None
  }

  ghost predicate BindingHasValues(p: Param, declared: bool, defaults: map<string, string>, eval: Evaluator) {
    forall o :: o in OriginalsFrom(p.value, 0) ==> HasValue(o, eval, DefaultFor(p.name, declared, defaults))
  }

  /** With distinct names the event stage succeeds exactly when every expression of every binding
      has an event value or its parameter a declared default. */
  lemma {:induction false} ResolveAllExact(params: seq<Param>, declared: bool, defaults: map<string, string>,
                                           eval: Evaluator)
    requires DistinctNames(params)
    ensures ResolveAll(params, declared, defaults, eval).Some? <==>
      forall k :: 0 <= k < |params| ==> BindingHasValues(params[k], declared, defaults, eval)
    decreases |params|
  {
    hide ResolveValue, BindingHasValues;
    if params != [] {
      var n := |params| - 1;
      var p, front := params[n], params[..n];
      ResolveAllExact(front, declared, defaults, eval);
      assert forall k :: 0 <= k < n ==> front[k] == params[k];
      if ResolveAll(front, declared, defaults, eval).Some? {
        UnboundParam(front, declared, defaults, eval, p.name);
        LastResolves(p, declared, defaults, ResolveAll(front, declared, defaults, eval).value, eval);
      }
    }
  }

  lemma LastResolves(p: Param, declared: bool, defaults: map<string, string>, before: map<string, string>,
                     eval: Evaluator)
    requires p.name in before <==> p.name in defaults
    requires p.name in defaults ==> before[p.name] == defaults[p.name]
    ensures ResolveValue(p.value, eval, Fallback(p.name, declared, before)).Some? <==>
      BindingHasValues(p, declared, defaults, eval)
  {
    hide ResolveValue, HasValue, OriginalsFrom;
    ResolveValueExact(p.value, eval, Fallback(p.name, declared, before));
    assert Fallback(p.name, declared, before) == DefaultFor(p.name, declared, defaults);
  }

  /** The entry of a bound name in the map: its own text, each expression replaced by the event's
      value where there is one and by the declared default only where there is none. */
  lemma MapFromEvent(params: seq<Param>, declared: bool, defaults: map<string, string>, eval: Evaluator, k: nat)
    requires DistinctNames(params) && ResolveAll(params, declared, defaults, eval).Some? && k < |params|
    ensures var m := ResolveAll(params, declared, defaults, eval).value; var p := params[k];
      var fallback := DefaultFor(p.name, declared, defaults);
      && p.name in m && ResolveValue(p.value, eval, fallback) == Some(m[p.name])
      && forall o :: o in OriginalsFrom(p.value, 0) ==> ValueOf(p.value, eval, fallback, o)
  {
    hide ResolveValue, ResolveAll, EventValues, OriginalsFrom, ExpressionOf;
    var p := params[k];
    BoundParam(params, declared, defaults, eval, k);
    var fallback := DefaultFor(p.name, declared, defaults);
    assert Fallback(p.name, declared, defaults) == fallback;
    forall o | o in OriginalsFrom(p.value, 0) ensures ValueOf(p.value, eval, fallback, o) {
      EventValueWins(p.value, eval, fallback, o);
    }
  }

  /** The default of a name is that of its last declaration that has one. */
  lemma {:induction false} DefaultsValues(specs: seq<ParamSpec>, d: nat)
    requires d < |specs| && specs[d].defaultValue.Some?
    requires forall e :: d < e < |specs| && specs[e].name == specs[d].name ==> specs[e].defaultValue.None?
    ensures specs[d].name in DefaultsOf(specs) && Some(DefaultsOf(specs)[specs[d].name]) == specs[d].defaultValue
    decreases |specs|
  {
    var n := |specs| - 1;
    if d < n {
      assert specs[..n][d] == specs[d];
      assert forall e :: 0 <= e < n ==> specs[..n][e] == specs[e];
      DefaultsValues(specs[..n], d);
    }
  }
}
