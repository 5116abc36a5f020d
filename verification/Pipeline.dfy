/** From an event to a resource, both stages together, under conditions that can be read off the
    binding values, the template and the resolved parameters. */
module Pipeline {
  import opened Text
  import opened Wrappers
  import opened Substitution
  import opened Scanner
  import opened Bindings
  import opened Templates
  import opened TemplateMeaning
  import opened Declarations

  // ---- Readable conditions -----------------------------------------------------------

  predicate NoBrackets(s: string) {
    '(' !in s && ')' !in s
  }

  lemma {:induction false} FlatDepth(s: string)
    requires NoBrackets(s)
    ensures Depth(s) == 0
    decreases |s|
  {
    if s != "" {
      assert s[|s| - 1] in s;
      FlatDepth(s[..|s| - 1]);
    }
  }

  lemma FlatIsBody(b: string)
    requires NoBrackets(b)
    ensures IsBody(b)
  {
    FlatDepth(b);
    forall k | 0 <= k <= |b| ensures Depth(b[..k]) >= 0 { FlatDepth(b[..k]); }
    forall i | 0 <= i < |b| ensures !OpensAt(b, i) {
      if i + 1 < |b| { assert b[i + 1] in b; }
    }
  }

  lemma VariableIsExpression(name: string)
    requires NoBrackets(name)
    ensures IsExpression(ParamToken(name)) && PlainName(name)
  {
    var b := "tt.params." + name;
    FlatIsBody(b);
    FlatIsBody(name);
    assert ParamToken(name) == Wrap(b);
  }

  lemma UidIsExpression()
    ensures IsExpression(UID)
  {
    FlatIsBody("uid");
    assert UID == Wrap("uid");
  }

  lemma GrammarHasNoBrackets(n: string)
    requires GrammarName(n)
    ensures NoBrackets(n)
  {
  }

  lemma CleanTail(v: string)
    requires CleanValue(v) && v != ""
    ensures CleanValue(v[1..])
  {
    forall i | 0 <= i < |v[1..]| ensures !OpensAt(v[1..], i) { OpensTail(v, 1, i); }
  }

  /** Escaping quotes brings in no `$(` and no `$` at the end. */
  lemma {:induction false} QuotedClean(v: string)
    requires CleanValue(v)
    ensures var r := ReplaceAll(v, "\"", "\\\"");
      CleanValue(r) && (r == "" <==> v == "") && (r != "" ==> r[0] == if v[0] == '"' then '\\' else v[0])
    decreases |v|
  {
    if v != "" {
      CleanTail(v);
      QuotedClean(v[1..]);
      assert "\"" <= v <==> v[0] == '"';
      var head := if v[0] == '"' then "\\\"" else [v[0]];
      var rest := ReplaceAll(v[1..], "\"", "\\\"");
      assert ReplaceAll(v, "\"", "\\\"") == head + rest;
      assert !OpensAt(v, 0);
      forall i | 0 <= i < |head + rest| ensures !OpensAt(head + rest, i) {
        if i >= |head| { assert !OpensAt(rest, i - |head|); }
      }
    }
  }

  /** A clean value is spliced in as it is, but for its quotes under old-escape. */
  lemma EncodedClean(v: string, oldEscape: bool)
    requires CleanValue(v)
    ensures CleanValue(Encoded(v, oldEscape))
    ensures Encoded(v, oldEscape) == Quoted(v, oldEscape)
  {
    QuotedClean(v);
    var w := Quoted(v, oldEscape);
    forall i | 0 <= i <= |w| ensures !("$(" <= w[i..]) {
      if "$(" <= w[i..] { assert w[i..][0] == w[i] && w[i..][1] == w[i + 1] && OpensAt(w, i); }
    }
    ReplaceAbsent(w, "$(", "$$(");
  }

  predicate CleanParams(params: seq<Param>) {
    forall k :: 0 <= k < |params| ==> NoBrackets(params[k].name) && CleanValue(params[k].value)
  }

  lemma CleanSteps(params: seq<Param>, oldEscape: bool)
    requires CleanParams(params)
    ensures PlainNames(params) && Independent(params, oldEscape) && UidSafe(params, oldEscape)
  {
    forall k | 0 <= k < |params| ensures PlainName(params[k].name) { VariableIsExpression(params[k].name); }
    forall k | 0 <= k < |params| ensures CleanValue(Quoted(params[k].value, oldEscape)) {
      QuotedClean(params[k].value);
    }
    CleanIsIndependent(params, oldEscape);
    UidFits("");
    forall k | 0 <= k < |params| ensures SafeValue(Quoted(params[k].value, oldEscape), UID) {
      CleanIsSafe(Quoted(params[k].value, oldEscape), UID);
    }
  }

  lemma ResourceTokens(params: seq<Param>, oldEscape: bool, uid: string)
    requires CleanParams(params)
    ensures forall t :: t in ValuesAndUid(params, oldEscape, uid) ==> IsExpression(t)
  {
    hide IsExpression;
    UidIsExpression();
    forall t | t in Values(params, oldEscape) ensures IsExpression(t) {
      var k := FirstWinsFrom(StepsOf(params, oldEscape), t);
      VariableIsExpression(params[k].name);
    }
  }

  /** A template every `$(` of which, but possibly the last, is a complete expression, and none of
      whose expressions stands behind a `$`; parameters with bracket-free names and with values
      that hold no `$(` and do not end in `$`: then every order of the parameters, with the uid
      step last or first, gives the simultaneous substitution. */
  lemma CleanResource(order: seq<Param>, params: seq<Param>, rt: string, oldEscape: bool, uid: string)
    requires Validated(rt) && NoDollarBeforeExpr(rt) && '$' !in uid
    requires CleanParams(params) && DistinctNames(params) && Reorders(order, params)
    ensures ApplyUID(ApplyParams(order, rt, oldEscape), uid) == Simultaneous(rt, ValuesAndUid(params, oldEscape, uid))
    ensures ApplyParams(order, ApplyUID(rt, uid), oldEscape) == Simultaneous(rt, ValuesAndUid(params, oldEscape, uid))
  {
    hide Independent, UidSafe, SafeText, Validated, NoDollarBeforeExpr, IsExpression, Simultaneous, CleanParams;
    CleanSteps(params, oldEscape);
    ResourceTokens(params, oldEscape, uid);
    ValidatedIsSafe(rt, ValuesAndUid(params, oldEscape, uid).Keys);
    ResourceMeaning(order, params, rt, oldEscape, uid);
    ValuesReorder(order, params, oldEscape);
    IndependentReorder(order, params, oldEscape);
    UidFirst(order, rt, oldEscape, uid);
  }

  // ---- What is left in the resource --------------------------------------------------

  lemma CleanTokenGone(params: seq<Param>, rt: string, oldEscape: bool, uid: string, m: string)
    requires Validated(rt) && NoDollarBeforeExpr(rt) && '$' !in uid && CleanParams(params)
    requires IsExpression(m) && (m in ValuesAndUid(params, oldEscape, uid) || !Occurs(m, rt))
    ensures !Occurs(m, Simultaneous(rt, ValuesAndUid(params, oldEscape, uid)))
  {
    hide Validated, NoDollarBeforeExpr, Simultaneous, Occurs;
    var values := ValuesAndUid(params, oldEscape, uid);
    ResourceTokens(params, oldEscape, uid);
    ExpressionsFit(values.Keys + {m});
    ValidatedIsSafe(rt, values.Keys + {m});
    assert SafeBefore(rt, values.Keys + {m}, m);
    assert SafeBefore(rt, values.Keys, m);
    forall t | t in values ensures SafeValue(values[t], m) { CleanValues(params, oldEscape, uid, t, m); }
    NothingLeft(rt, values, m);
  }

  lemma ExpressionsFit(ts: set<string>)
    requires forall t :: t in ts ==> IsExpression(t)
    ensures forall t :: t in ts ==> IsToken(t)
    ensures forall t, m :: t in ts && m in ts ==> Compatible(t, m)
  {
    forall t | t in ts ensures IsToken(t) {
      var b :| IsBody(b) && t == Wrap(b);
      WrapIsToken(b);
    }
    forall t, m | t in ts && m in ts ensures Compatible(t, m) {
      var b :| IsBody(b) && t == Wrap(b);
      var c :| IsBody(c) && m == Wrap(c);
      if Comparable(t, m) { BodiesPrefixFree(b, c); }
    }
  }

  lemma CleanValues(params: seq<Param>, oldEscape: bool, uid: string, t: string, m: string)
    requires '$' !in uid && CleanParams(params) && IsToken(m) && t in ValuesAndUid(params, oldEscape, uid)
    ensures SafeValue(ValuesAndUid(params, oldEscape, uid)[t], m)
  {
    if t == UID {
      forall i | 0 <= i < |uid| ensures !OpensAt(uid, i) { assert uid[i] in uid; }
      if uid != "" { assert uid[|uid| - 1] in uid; }
      CleanIsSafe(uid, m);
    } else {
      var k := FirstWinsFrom(StepsOf(params, oldEscape), t);
      EncodedClean(params[k].value, oldEscape);
      CleanIsSafe(Encoded(params[k].value, oldEscape), m);
    }
  }

  predicate CleanMap(m: map<string, string>) {
    forall n :: n in m ==> NoBrackets(n) && CleanValue(m[n])
  }

  lemma FlatClean(order: seq<Param>, m: map<string, string>)
    requires Flattens(order, m) && CleanMap(m)
    ensures CleanParams(order)
  {
    forall k | 0 <= k < |order| ensures NoBrackets(order[k].name) && CleanValue(order[k].value) {
      assert order[k] in order;
    }
  }

  // ---- What the event stage hands on -------------------------------------------------

  /** Every `$(` starts a complete expression, and no `$` stands before one or at the end. */
  ghost predicate Tidy(text: string) {
    && (forall p :: OpensAt(text, p) ==> exists q :: IsExprAt(text, p, q))
    && NoDollarBeforeExpr(text)
    && (text != "" ==> text[|text| - 1] != '$')
  }

  /** The same told from the tokens. */
  ghost predicate Neat(s: string, tokens: set<string>) {
    && (forall i: nat :: OpensAt(s, i) ==> exists t :: t in tokens && t <= s[i..])
    && (forall i, t :: 0 < i <= |s| && t in tokens && t <= s[i..] ==> s[i - 1] != '$')
    && (s != "" ==> s[|s| - 1] != '$')
  }

  lemma TidyIsNeat(text: string, tokens: set<string>)
    requires Tidy(text) && forall o :: o in tokens <==> o in OriginalsFrom(text, 0)
    ensures Neat(text, tokens)
  {
    forall i: nat | OpensAt(text, i) ensures exists t :: t in tokens && t <= text[i..] {
      var q :| IsExprAt(text, i, q);
      var t := text[i..q + 1];
      assert t == text[i..][..q + 1 - i];
      OriginalsExact(text, 0, t);
    }
    forall i, t | 0 < i <= |text| && t in tokens && t <= text[i..] ensures text[i - 1] != '$' {
      var b := OriginalsAreWraps(text, t);
      ExprOccurs(text, i, b);
    }
  }

  lemma NeatTail(s: string, tokens: set<string>, k: nat)
    requires Neat(s, tokens) && k <= |s|
    ensures Neat(s[k..], tokens)
  {
    var r := s[k..];
    forall i: nat | OpensAt(r, i) ensures exists t :: t in tokens && t <= r[i..] {
      OpensTail(s, k, i);
      assert r[i..] == s[k + i..];
    }
    forall i, t | 0 < i <= |r| && t in tokens && t <= r[i..] ensures r[i - 1] != '$' {
      assert r[i..] == s[k + i..];
    }
  }

  /** Clean values in a neat text give a clean text. */
  lemma {:induction false} SimultaneousClean(s: string, values: map<string, string>)
    requires "" !in values && Neat(s, values.Keys)
    requires forall t, m :: t in values && m in values ==> Compatible(t, m)
    requires forall t :: t in values ==> CleanValue(values[t])
    ensures CleanValue(Simultaneous(s, values))
    ensures s != "" && (forall t :: t in values ==> !(t <= s)) ==>
      Simultaneous(s, values) != "" && Simultaneous(s, values)[0] == s[0]
    decreases |s|
  {
    hide Neat, CleanValue, Compatible;
    if s == "" {
      CleanNothing();
    } else if exists t :: t in values && t <= s {
      var t :| t in values && t <= s;
      var r := s[|t|..];
      assert s == t + r;
      SimultaneousToken(t, r, values);
      NeatTail(s, values.Keys, |t|);
      SimultaneousClean(r, values);
      CleanAppend(values[t], Simultaneous(r, values));
    } else {
      NeatTail(s, values.Keys, 1);
      SimultaneousClean(s[1..], values);
      NeatChar(s, values);
    }
  }

  lemma CleanNothing()
    ensures CleanValue("")
  {
  }

  lemma CleanAppend(v: string, w: string)
    requires CleanValue(v) && CleanValue(w)
    ensures CleanValue(v + w)
  {
    var s := v + w;
    forall i | 0 <= i < |s| ensures !OpensAt(s, i) {
      if i < |v| { assert !OpensAt(v, i); } else { assert !OpensAt(w, i - |v|); }
    }
    if w != "" { assert s[|s| - 1] == w[|w| - 1]; }
  }

  lemma NeatChar(s: string, values: map<string, string>)
    requires "" !in values && s != "" && Neat(s, values.Keys) && forall t :: t in values ==> !(t <= s)
    requires var r := Simultaneous(s[1..], values);
      && CleanValue(r)
      && (s[1..] != "" && (forall t :: t in values ==> !(t <= s[1..])) ==> r != "" && r[0] == s[1..][0])
    ensures CleanValue([s[0]] + Simultaneous(s[1..], values))
  {
    var r := Simultaneous(s[1..], values);
    var x := [s[0]] + r;
    if s[0] == '$' {
      assert s[1..] != "" && s[0..] == s && !OpensAt(s, 0);
      forall t | t in values ensures !(t <= s[1..]) { }
    }
    assert !OpensAt(x, 0);
    forall i | 0 < i < |x| ensures !OpensAt(x, i) { assert !OpensAt(r, i - 1); }
    if r != "" { assert x[|x| - 1] == r[|r| - 1]; }
  }

  /** Each expression of a text with its event value, or else the fallback. */
  ghost function ExprValues(text: string, eval: Evaluator, fallback: Option<string>): (values: map<string, string>)
    ensures "" !in values
  {
    map o | o in OriginalsFrom(text, 0) && |o| >= 3 && Contribution(o, eval, fallback).Some? ::
      Contribution(o, eval, fallback).value
  }

  lemma ExprValuesAre(text: string, eval: Evaluator, fallback: Option<string>)
    requires ResolveValue(text, eval, fallback).Some?
    ensures EventValues(text, eval, fallback) == ExprValues(text, eval, fallback)
  {
    hide ResolveValue, EventValues, Contribution, OriginalsFrom;
    EventValuesExact(text, eval, fallback);
  }

  /** The intended parameter map: every binding means the simultaneous substitution of its own
      expressions, failed ones by its own default, and lies over the defaults. */
  ghost function Intended(bindings: seq<Param>, declared: bool, defaults: map<string, string>, eval: Evaluator)
    : map<string, string>
  {
    if bindings == [] then defaults
    else
      var p := bindings[|bindings| - 1];
      Intended(bindings[..|bindings| - 1], declared, defaults, eval)[p.name :=
        Simultaneous(p.value, ExprValues(p.value, eval, Fallback(p.name, declared, defaults)))]
  }

  /** Bracket-free names, tidy binding texts, clean defaults and clean event values. */
  ghost predicate CleanBinding(p: Param, eval: Evaluator) {
    && NoBrackets(p.name) && Tidy(p.value)
    && forall o :: o in OriginalsFrom(p.value, 0) && |o| >= 3 && eval(ExpressionOf(o)).Some? ==>
      CleanValue(eval(ExpressionOf(o)).value)
  }

  ghost predicate CleanInputs(bindings: seq<Param>, defaults: map<string, string>, eval: Evaluator) {
    DistinctNames(bindings) && CleanMap(defaults) && forall k :: 0 <= k < |bindings| ==> CleanBinding(bindings[k], eval)
  }

  lemma CleanContributions(p: Param, eval: Evaluator, fallback: Option<string>)
    requires CleanBinding(p, eval) && (fallback.Some? ==> CleanValue(fallback.value))
    requires ResolveValue(p.value, eval, fallback).Some?
    ensures forall o :: o in EventValues(p.value, eval, fallback) ==>
      CleanValue(EventValues(p.value, eval, fallback)[o])
  {
    hide ResolveValue, EventValues, CleanValue, OriginalsFrom, Tidy;
    EventValuesExact(p.value, eval, fallback);
  }

  /** One clean binding means what it should, and its value is clean. */
  lemma CleanBindingMeaning(p: Param, eval: Evaluator, fallback: Option<string>)
    requires CleanBinding(p, eval) && (fallback.Some? ==> CleanValue(fallback.value))
    requires ResolveValue(p.value, eval, fallback).Some?
    ensures ResolveValue(p.value, eval, fallback) == Some(Simultaneous(p.value, ExprValues(p.value, eval, fallback)))
    ensures CleanValue(ResolveValue(p.value, eval, fallback).value)
  {
    var values := EventValues(p.value, eval, fallback);
    assert Tidy(p.value) && Validated(p.value) && NoDollarBeforeExpr(p.value);
    hide ResolveValue, EventValues, CleanValue, OriginalsFrom, Tidy, Validated, NoDollarBeforeExpr, CleanBinding,
         Simultaneous, Contribution, Compatible, ExprValues;
    CleanContributions(p, eval, fallback);
    AdmittedValueMeaning(p.value, eval, fallback);
    ExprValuesAre(p.value, eval, fallback);
    EventValuesExact(p.value, eval, fallback);
    TidyIsNeat(p.value, values.Keys);
    OriginalsFit(p.value);
    SimultaneousClean(p.value, values);
  }

  /** On clean inputs the event stage computes the intended map, and the map is clean. */
  lemma {:induction false} IntendedMap(bindings: seq<Param>, declared: bool, defaults: map<string, string>,
                                       eval: Evaluator)
    requires CleanInputs(bindings, defaults, eval) && ResolveAll(bindings, declared, defaults, eval).Some?
    ensures ResolveAll(bindings, declared, defaults, eval) == Some(Intended(bindings, declared, defaults, eval))
    ensures CleanMap(Intended(bindings, declared, defaults, eval))
    decreases |bindings|
  {
    hide ResolveValue, CleanBinding, ExprValues, Simultaneous;
    if bindings != [] {
      var n := |bindings| - 1;
      var p, front := bindings[n], bindings[..n];
      IntendedMap(front, declared, defaults, eval);
      UnboundParam(front, declared, defaults, eval, p.name);
      var before := ResolveAll(front, declared, defaults, eval).value;
      assert Fallback(p.name, declared, before) == Fallback(p.name, declared, defaults);
      CleanBindingMeaning(p, eval, Fallback(p.name, declared, defaults));
      BindingName(p, eval);
    }
  }

  lemma BindingName(p: Param, eval: Evaluator)
    requires CleanBinding(p, eval)
    ensures NoBrackets(p.name)
  {
  }

  // ---- Both stages -------------------------------------------------------------------

  /** Every declared parameter has a default or a binding. */
  predicate Supplied(specs: seq<ParamSpec>, bindings: seq<Param>) {
    forall d :: 0 <= d < |specs| ==>
      specs[d].defaultValue.Some? || exists k :: 0 <= k < |bindings| && bindings[k].name == specs[d].name
  }

  lemma SuppliedIsCovered(specs: seq<ParamSpec>, bindings: seq<Param>, declared: bool, eval: Evaluator,
                          m: map<string, string>, order: seq<Param>)
    requires Supplied(specs, bindings) && Flattens(order, m)
    requires ResolveAll(bindings, declared, DefaultsOf(specs), eval) == Some(m)
    ensures Covered(specs, order)
  {
    forall d | 0 <= d < |specs| ensures exists k :: 0 <= k < |order| && order[k].name == specs[d].name {
      var n := specs[d].name;
      DefaultsNames(specs, n);
      ParamMapNames(bindings, declared, DefaultsOf(specs), eval, n);
      var p := Param(n, m[n]);
      assert p in order;
      var k :| 0 <= k < |order| && order[k] == p;
      assert order[k].name == specs[d].name;
    }
  }

  lemma DeclaredVariable(specs: seq<ParamSpec>, order: seq<Param>, rt: string, oldEscape: bool, n: string)
    requires Declared(specs, [rt]) && Covered(specs, order) && GrammarName(n) && Occurs(ParamToken(n), rt)
    requires PlainNames(order) && DistinctNames(order)
    ensures ParamToken(n) in Values(order, oldEscape)
  {
    var i :| 0 <= i <= |rt| && ParamToken(n) <= rt[i..];
    VariableMatches(rt, i, n);
    assert [rt][0] == rt;
    var d :| 0 <= d < |specs| && specs[d].name == n;
    var k :| 0 <= k < |order| && order[k].name == specs[d].name;
    hide Values;
    ValueAt(order, oldEscape, k);
  }

  /** The resource stage on a clean map. */
  lemma ResourceFromMap(specs: seq<ParamSpec>, m: map<string, string>, order: seq<Param>, rt: string,
                        oldEscape: bool, uid: string)
    requires Flattens(order, m) && CleanMap(m) && Covered(specs, order) && Declared(specs, [rt])
    requires Validated(rt) && NoDollarBeforeExpr(rt) && '$' !in uid
    ensures var r := ApplyUID(ApplyParams(order, rt, oldEscape), uid);
      && r == Simultaneous(rt, ValuesAndUid(order, oldEscape, uid))
      && (forall other :: Flattens(other, m) ==> r == ApplyUID(ApplyParams(other, rt, oldEscape), uid))
      && (forall n :: GrammarName(n) ==> !Occurs(ParamToken(n), r))
      && !Occurs(UID, r)
  {
    hide Simultaneous, Validated, NoDollarBeforeExpr, Declared, CleanParams, Occurs, Values, ParamToken, Covered;
    FlatClean(order, m);
    CleanSteps(order, oldEscape);
    forall other | Flattens(other, m)
      ensures ApplyUID(ApplyParams(other, rt, oldEscape), uid) == Simultaneous(rt, ValuesAndUid(order, oldEscape, uid))
    {
      assert Reorders(other, order);
      CleanResource(other, order, rt, oldEscape, uid);
    }
    forall n | GrammarName(n) ensures !Occurs(ParamToken(n), Simultaneous(rt, ValuesAndUid(order, oldEscape, uid))) {
      GrammarHasNoBrackets(n);
      VariableIsExpression(n);
      if Occurs(ParamToken(n), rt) { DeclaredVariable(specs, order, rt, oldEscape, n); }
      CleanTokenGone(order, rt, oldEscape, uid, ParamToken(n));
    }
    UidIsExpression();
    CleanTokenGone(order, rt, oldEscape, uid, UID);
  }

  /** The declared parameters; a nil list declares none. */
  function SpecList(specs: Option<seq<ParamSpec>>): seq<ParamSpec> {
    if specs.Some? then specs.value else []
  }

  /** Both stages, from conditions on the inputs alone: the event stage gives the intended map, each
      binding the simultaneous substitution of its own text; flattened in an arbitrary order and
      spliced into a template that admission accepted, then the uid, it gives the simultaneous
      substitution of these values, the same for every other order, and neither a parameter variable
      nor the uid variable is left in it. */
  lemma ResourceFromEvent(specs: Option<seq<ParamSpec>>, bindings: seq<Param>, eval: Evaluator, m: map<string, string>,
                          order: seq<Param>, rt: string, oldEscape: bool, uid: string)
    requires ResolveAll(bindings, specs.Some?, SpecDefaults(specs), eval) == Some(m) && Flattens(order, m)
    requires CleanInputs(bindings, SpecDefaults(specs), eval)
    requires Supplied(SpecList(specs), bindings) && Declared(SpecList(specs), [rt])
    requires Validated(rt) && NoDollarBeforeExpr(rt) && '$' !in uid
    ensures m == Intended(bindings, specs.Some?, SpecDefaults(specs), eval)
    ensures var r := ApplyUID(ApplyParams(order, rt, oldEscape), uid);
      && r == Simultaneous(rt, ValuesAndUid(order, oldEscape, uid))
      && (forall other :: Flattens(other, m) ==> r == ApplyUID(ApplyParams(other, rt, oldEscape), uid))
      && (forall n :: GrammarName(n) ==> !Occurs(ParamToken(n), r))
      && !Occurs(UID, r)
  {
    hide Simultaneous, Validated, NoDollarBeforeExpr, Declared, Supplied, ResolveAll, Intended, Occurs, CleanInputs,
         CleanMap;
    assert SpecDefaults(specs) == DefaultsOf(SpecList(specs));
    IntendedMap(bindings, specs.Some?, SpecDefaults(specs), eval);
    SuppliedIsCovered(SpecList(specs), bindings, specs.Some?, eval, m, order);
    ResourceFromMap(SpecList(specs), m, order, rt, oldEscape, uid);
  }
}
