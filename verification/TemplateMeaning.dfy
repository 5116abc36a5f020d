/** Which parameter values make the order of the parameter list, and the place of the uid step,
    irrelevant. */
module TemplateMeaning {
  import opened Text
  import opened Substitution
  import opened Scanner
  import opened Bindings
  import opened Templates

  /** The text a template becomes when the parameters are applied in the given order. */
  function ApplyParams(order: seq<Param>, rt: string, oldEscape: bool): string {
    ApplySeq(rt, StepsOf(order, oldEscape))
  }

  /** Each parameter's variable with the text it becomes. */
  function Values(params: seq<Param>, oldEscape: bool): (values: map<string, string>)
    ensures "" !in values
  {
    FirstWins(StepsOf(params, oldEscape))
  }

  /** The same parameters, each once, in some order. */
  predicate Reorders(order: seq<Param>, params: seq<Param>) {
    && DistinctNames(order)
    && (forall k :: 0 <= k < |order| ==> order[k] in params)
    && (forall k :: 0 <= k < |params| ==> params[k] in order)
  }

  /** No value can feed another parameter's variable. */
  predicate Independent(params: seq<Param>, oldEscape: bool) {
    forall j, k :: 0 <= j < |params| && 0 <= k < |params| && j != k ==>
      SafeValue(Quoted(params[j].value, oldEscape), ParamToken(params[k].name))
  }

  /** What is said of the value holds of its escaped text: escaping does not change what it feeds. */
  lemma EncodedSafe(value: string, oldEscape: bool, m: string)
    requires IsToken(m)
    ensures SafeValue(Encoded(value, oldEscape), m) <==> SafeValue(Quoted(value, oldEscape), m)
  {
    EscapeKeepsSafety(Quoted(value, oldEscape), m);
  }

  lemma IndependentSteps(params: seq<Param>, oldEscape: bool)
    requires PlainNames(params) && Independent(params, oldEscape)
    ensures SafeOrder(StepsOf(params, oldEscape))
    ensures forall j, k :: 0 <= j < |params| && 0 <= k < |params| && j != k ==>
      SafeValue(Encoded(params[j].value, oldEscape), ParamToken(params[k].name))
  {
    hide SafeValue, Quoted, Encoded;
    forall j, k | 0 <= j < |params| && 0 <= k < |params| && j != k
      ensures SafeValue(Encoded(params[j].value, oldEscape), ParamToken(params[k].name))
    {
      ParamTokenIsToken(params[k].name);
      EncodedSafe(params[j].value, oldEscape, ParamToken(params[k].name));
    }
  }

  lemma ValueAt(params: seq<Param>, oldEscape: bool, k: nat)
    requires PlainNames(params) && DistinctNames(params) && k < |params|
    ensures ParamToken(params[k].name) in Values(params, oldEscape)
    ensures Values(params, oldEscape)[ParamToken(params[k].name)] == Encoded(params[k].value, oldEscape)
  {
    var steps := StepsOf(params, oldEscape);
    forall j | 0 <= j < k ensures steps[j].token != steps[k].token {
      ParamTokensFit(params[j].name, params[k].name);
    }
    FirstWinsAt(steps, k);
  }

  lemma {:induction false} ValuesInclude(order: seq<Param>, params: seq<Param>, oldEscape: bool, t: string)
    requires PlainNames(params) && DistinctNames(params) && PlainNames(order) && DistinctNames(order)
    requires forall k :: 0 <= k < |order| ==> order[k] in params
    requires t in Values(order, oldEscape)
    ensures t in Values(params, oldEscape) && Values(order, oldEscape)[t] == Values(params, oldEscape)[t]
  {
    hide FirstWins;
    var k :| 0 <= k < |order| && StepsOf(order, oldEscape)[k].token == t;
    var j :| 0 <= j < |params| && params[j] == order[k];
    ValueAt(order, oldEscape, k);
    ValueAt(params, oldEscape, j);
  }

  /** The map of values does not depend on the order. */
  lemma {:induction false} ValuesReorder(order: seq<Param>, params: seq<Param>, oldEscape: bool)
    requires PlainNames(params) && DistinctNames(params) && Reorders(order, params)
    ensures PlainNames(order) && Values(order, oldEscape) == Values(params, oldEscape)
  {
    hide Values;
    var a, b := Values(order, oldEscape), Values(params, oldEscape);
    forall k | 0 <= k < |order| ensures PlainName(order[k].name) { assert order[k] in params; }
    forall t | t in a ensures t in b && a[t] == b[t] { ValuesInclude(order, params, oldEscape, t); }
    forall t | t in b ensures t in a { ValuesInclude(params, order, oldEscape, t); }
  }

  lemma IndependentReorder(order: seq<Param>, params: seq<Param>, oldEscape: bool)
    requires Reorders(order, params) && Independent(params, oldEscape)
    ensures Independent(order, oldEscape)
  {
    forall j, k | 0 <= j < |order| && 0 <= k < |order| && j != k
      ensures SafeValue(Quoted(order[j].value, oldEscape), ParamToken(order[k].name))
    {
      var j' :| 0 <= j' < |params| && params[j'] == order[j];
      var k' :| 0 <= k' < |params| && params[k'] == order[k];
      assert j < k || k < j;
    }
  }

  /** With independent values every order gives the simultaneous substitution. */
  lemma OrderIsHarmless(order: seq<Param>, params: seq<Param>, rt: string, oldEscape: bool)
    requires PlainNames(params) && DistinctNames(params) && Independent(params, oldEscape)
    requires Reorders(order, params) && SafeText(rt, Values(params, oldEscape).Keys)
    ensures ApplyParams(order, rt, oldEscape) == Simultaneous(rt, Values(params, oldEscape))
  {
    ValuesReorder(order, params, oldEscape);
    IndependentReorder(order, params, oldEscape);
    StepsValid(order, oldEscape);
    IndependentSteps(order, oldEscape);
    SequentialIsSimultaneous(rt, StepsOf(order, oldEscape));
  }

  /** The list without two of its elements. */
  function Without(params: seq<Param>, a: Param, b: Param): (rest: seq<Param>)
    ensures forall p :: p in rest <==> p in params && p != a && p != b
  {
    if params == [] then []
    else
      var n := |params| - 1;
      assert params == params[..n] + [params[n]];
      var before := Without(params[..n], a, b);
      if params[n] == a || params[n] == b then before else before + [params[n]]
  }

  lemma WithoutDistinct(params: seq<Param>, a: Param, b: Param)
    requires DistinctNames(params)
    ensures DistinctNames(Without(params, a, b))
  {
    if params != [] {
      var n := |params| - 1;
      var before := Without(params[..n], a, b);
      WithoutDistinct(params[..n], a, b);
      forall k | 0 <= k < |before| ensures before[k].name != params[n].name {
        assert before[k] in before;
        assert before[k] in params[..n];
      }
    }
  }

  /** Two parameters moved to the end. */
  lemma MoveLast(params: seq<Param>, j: nat, k: nat) returns (order: seq<Param>)
    requires DistinctNames(params) && j < |params| && k < |params| && j != k
    ensures order == Without(params, params[j], params[k]) + [params[j], params[k]]
    ensures Reorders(order, params)
  {
    var rest := Without(params, params[j], params[k]);
    order := rest + [params[j], params[k]];
    WithoutDistinct(params, params[j], params[k]);
    forall i | 0 <= i < |rest| ensures rest[i].name != params[j].name && rest[i].name != params[k].name {
      assert rest[i] in rest;
      var i' :| 0 <= i' < |params| && params[i'] == rest[i];
    }
    assert j < k || k < j;
    forall i | 0 <= i < |order| ensures order[i] in params {
      if i < |rest| { assert order[i] in rest; }
    }
    forall i | 0 <= i < |params| ensures params[i] in order {
      if params[i] in rest {
      } else {
        assert order[|rest|] == params[j] && order[|rest| + 1] == params[k];
      }
    }
  }

  lemma EncodedIsNotVariable(value: string, oldEscape: bool, name: string)
    ensures Encoded(value, oldEscape) != ParamToken(name)
    ensures !OpensAt(Encoded(value, oldEscape), 0)
  {
    EscapeFront(Quoted(value, oldEscape));
  }

  /** A value that can feed another variable gives, in some order and on some safe template, a
      wrong resource. */
  lemma {:induction false} UnsafeOrder(params: seq<Param>, oldEscape: bool, j: nat, k: nat)
    returns (order: seq<Param>, rt: string)
    requires PlainNames(params) && DistinctNames(params)
    requires j < |params| && k < |params| && j != k
    requires !SafeValue(Quoted(params[j].value, oldEscape), ParamToken(params[k].name))
    ensures Reorders(order, params) && SafeText(rt, Values(params, oldEscape).Keys)
    ensures ApplyParams(order, rt, oldEscape) != Simultaneous(rt, Values(params, oldEscape))
  {
    hide Encoded;
    hide Simultaneous;
    hide ApplySeq;
    hide FirstWins;
    hide SafeText;
    ParamTokenIsToken(params[k].name);
    EncodedSafe(params[j].value, oldEscape, ParamToken(params[k].name));
    order := MoveLast(params, j, k);
    var rest := Without(params, params[j], params[k]);
    var a, b := StepOf(params[j], oldEscape), StepOf(params[k], oldEscape);
    ValuesReorder(order, params, oldEscape);
    StepsValid(order, oldEscape);
    assert StepsOf(order, oldEscape) == StepsOf(rest, oldEscape) + [a, b];
    MovedTokens(rest, params[j], params[k], oldEscape);
    EncodedIsNotVariable(params[k].value, oldEscape, params[k].name);
    rt := UnsafeValueMisleads(StepsOf(rest, oldEscape), a, b);
  }

  lemma MovedTokens(rest: seq<Param>, p: Param, q: Param, oldEscape: bool)
    requires PlainNames(rest + [p, q]) && DistinctNames(rest + [p, q])
    ensures ParamToken(p.name) != ParamToken(q.name)
    ensures forall i :: 0 <= i < |rest| ==> StepsOf(rest, oldEscape)[i].token != ParamToken(p.name)
  {
    var all := rest + [p, q];
    assert all[|rest|] == p && all[|rest| + 1] == q;
    ParamTokensFit(p.name, q.name);
    forall i | 0 <= i < |rest| ensures StepsOf(rest, oldEscape)[i].token != ParamToken(p.name) {
      assert all[i] == rest[i];
      ParamTokensFit(rest[i].name, p.name);
    }
  }

  /** The random order of the parameter list is harmless exactly when the values are independent. */
  lemma OrderIndependence(params: seq<Param>, oldEscape: bool)
    requires PlainNames(params) && DistinctNames(params)
    ensures Independent(params, oldEscape) <==>
      forall order, rt :: Reorders(order, params) && SafeText(rt, Values(params, oldEscape).Keys) ==>
        ApplyParams(order, rt, oldEscape) == Simultaneous(rt, Values(params, oldEscape))
  {
    if Independent(params, oldEscape) {
      forall order, rt | Reorders(order, params) && SafeText(rt, Values(params, oldEscape).Keys)
        ensures ApplyParams(order, rt, oldEscape) == Simultaneous(rt, Values(params, oldEscape))
      {
        OrderIsHarmless(order, params, rt, oldEscape);
      }
    } else {
      var j, k :| 0 <= j < |params| && 0 <= k < |params| && j != k &&
        !SafeValue(Quoted(params[j].value, oldEscape), ParamToken(params[k].name));
      var order, rt := UnsafeOrder(params, oldEscape, j, k);
    }
  }

  /** A parameter whose value is another one's variable is not independent of it. */
  lemma VariableAsValue(params: seq<Param>, j: nat, k: nat)
    requires PlainNames(params) && j < |params| && k < |params| && j != k
    requires params[j].value == ParamToken(params[k].name)
    ensures !Independent(params, false)
  {
    var v := params[j].value;
    assert v[0..] == v && !SafeValue(Quoted(v, false), ParamToken(params[k].name));
  }

  /** Escaping such a value does not protect it: applied first, it ends as the other one's value
      behind a `$`; applied last, as the escaped variable. */
  lemma EscapingDoesNotHide(n: string, m: string, v: string)
    requires PlainName(n) && PlainName(m) && n != m
    ensures var a, b := Param(n, ParamToken(m)), Param(m, v);
      && ApplyParams([a, b], ParamToken(n), false) == "$" + EscapeTekton(v)
      && ApplyParams([b, a], ParamToken(n), false) == "$" + ParamToken(m)
  {
    var a, b := Param(n, ParamToken(m)), Param(m, v);
    var x, y := ParamToken(n), ParamToken(m);
    ParamTokenIsToken(n);
    ParamTokenIsToken(m);
    ParamTokensFit(n, m);
    EscapedToken(y);
    ReplaceFront(x, "", "$" + y);
    ReplaceFront(y, "", EscapeTekton(v));
    assert x + "" == x && y + "" == y && ("$" + y) + "" == "$" + y && EscapeTekton(v) + "" == EscapeTekton(v);
    assert ("$" + y)[1..] == y && ("$" + y)[1] == '$';
    assert ReplaceAll("$" + y, y, EscapeTekton(v)) == "$" + EscapeTekton(v);
    OtherTokenAbsent(x, "", y);
    ReplaceAbsent(x, y, EscapeTekton(v));
    TwoParams(a, b, x);
    TwoParams(b, a, x);
  }

  lemma TwoParams(a: Param, b: Param, rt: string)
    ensures ApplyParams([a, b], rt, false) ==
      ReplaceAll(ReplaceAll(rt, ParamToken(a.name), EscapeTekton(a.value)), ParamToken(b.name), EscapeTekton(b.value))
  {
    hide ReplaceAll;
    var steps := StepsOf([a, b], false);
    assert steps == [StepOf(a, false)] + [StepOf(b, false)];
    ApplyOneMore(rt, [StepOf(a, false)], StepOf(b, false));
    assert [] + [StepOf(a, false)] == [StepOf(a, false)];
    ApplyNone(rt);
    ApplyOneMore(rt, [], StepOf(a, false));
  }

  /** Values without `$(` that do not end in `$` are independent. */
  lemma CleanIsIndependent(params: seq<Param>, oldEscape: bool)
    requires PlainNames(params)
    requires forall k :: 0 <= k < |params| ==> CleanValue(Quoted(params[k].value, oldEscape))
    ensures Independent(params, oldEscape)
  {
    forall j, k | 0 <= j < |params| && 0 <= k < |params| && j != k
      ensures SafeValue(Quoted(params[j].value, oldEscape), ParamToken(params[k].name))
    {
      ParamTokenIsToken(params[k].name);
      CleanIsSafe(Quoted(params[j].value, oldEscape), ParamToken(params[k].name));
    }
  }

  // ---- The uid -----------------------------------------------------------------------

  lemma {:induction false} FirstWinsLast(steps: seq<Rewrite>, last: Rewrite)
    requires forall k :: 0 <= k < |steps| ==> steps[k].token != last.token
    ensures FirstWins(steps + [last]) == FirstWins(steps)[last.token := last.value]
    decreases |steps|
  {
    if steps == [] {
      assert (steps + [last])[1..] == [];
    } else {
      assert (steps + [last])[1..] == steps[1..] + [last];
      FirstWinsLast(steps[1..], last);
    }
  }

  /** No value can feed the uid variable. */
  predicate UidSafe(params: seq<Param>, oldEscape: bool) {
    forall k :: 0 <= k < |params| ==> SafeValue(Quoted(params[k].value, oldEscape), UID)
  }

  lemma UidSafeSteps(params: seq<Param>, oldEscape: bool)
    requires UidSafe(params, oldEscape)
    ensures forall k :: 0 <= k < |params| ==> SafeValue(Encoded(params[k].value, oldEscape), UID)
  {
    hide SafeValue, Quoted, Encoded;
    UidFits("");
    forall k | 0 <= k < |params| ensures SafeValue(Encoded(params[k].value, oldEscape), UID) {
      EncodedSafe(params[k].value, oldEscape, UID);
    }
  }

  /** Every variable of the template with the text it becomes, the uid included. */
  function ValuesAndUid(params: seq<Param>, oldEscape: bool, uid: string): (values: map<string, string>)
    ensures "" !in values
  {
    Values(params, oldEscape)[UID := uid]
  }

  lemma UidStepsValid(params: seq<Param>, oldEscape: bool, uid: string)
    requires PlainNames(params)
    ensures ValidSteps(StepsOf(params, oldEscape) + [Rewrite(UID, uid)])
    ensures ValidSteps([Rewrite(UID, uid)] + StepsOf(params, oldEscape))
  {
    StepsValid(params, oldEscape);
    UidFits("");
    forall k | 0 <= k < |params|
      ensures Compatible(ParamToken(params[k].name), UID) && Compatible(UID, ParamToken(params[k].name))
    {
      UidFits(params[k].name);
    }
  }

  lemma UidTokenNew(params: seq<Param>, oldEscape: bool)
    ensures forall k :: 0 <= k < |params| ==> StepsOf(params, oldEscape)[k].token != UID
  {
    forall k | 0 <= k < |params| ensures StepsOf(params, oldEscape)[k].token != UID { UidFits(params[k].name); }
  }

  lemma UidLast(params: seq<Param>, rt: string, oldEscape: bool, uid: string)
    requires PlainNames(params) && DistinctNames(params) && Independent(params, oldEscape)
    requires UidSafe(params, oldEscape) && SafeText(rt, ValuesAndUid(params, oldEscape, uid).Keys)
    ensures ApplyUID(ApplyParams(params, rt, oldEscape), uid) == Simultaneous(rt, ValuesAndUid(params, oldEscape, uid))
  {
    var steps, u := StepsOf(params, oldEscape), Rewrite(UID, uid);
    UidStepsValid(params, oldEscape, uid);
    UidTokenNew(params, oldEscape);
    FirstWinsLast(steps, u);
    ApplyOneMore(rt, steps, u);
    IndependentSteps(params, oldEscape);
    UidSafeSteps(params, oldEscape);
    hide SafeValue, FirstWins, Simultaneous, ApplySeq, Encoded, SafeText, Independent, UidSafe, ValidSteps;
    SequentialIsSimultaneous(rt, steps + [u]);
  }

  lemma UidFirst(params: seq<Param>, rt: string, oldEscape: bool, uid: string)
    requires PlainNames(params) && DistinctNames(params) && Independent(params, oldEscape)
    requires '$' !in uid && SafeText(rt, ValuesAndUid(params, oldEscape, uid).Keys)
    ensures ApplyParams(params, ApplyUID(rt, uid), oldEscape) == Simultaneous(rt, ValuesAndUid(params, oldEscape, uid))
  {
    var steps, u := StepsOf(params, oldEscape), Rewrite(UID, uid);
    UidStepsValid(params, oldEscape, uid);
    assert ([u] + steps)[1..] == steps;
    forall k | 0 <= k < |steps| ensures SafeValue(uid, steps[k].token) {
      forall i | 0 <= i < |uid| ensures !Comparable(uid[i..], steps[k].token) {
        assert uid[i] in uid && uid[i..][0] == uid[i];
      }
    }
    IndependentSteps(params, oldEscape);
    SequentialIsSimultaneous(rt, [u] + steps);
  }

  /** The whole resource: parameters in any order, then the uid, is the simultaneous meaning. */
  lemma ResourceMeaning(order: seq<Param>, params: seq<Param>, rt: string, oldEscape: bool, uid: string)
    requires PlainNames(params) && DistinctNames(params) && Independent(params, oldEscape)
    requires UidSafe(params, oldEscape) && Reorders(order, params)
    requires SafeText(rt, ValuesAndUid(params, oldEscape, uid).Keys)
    ensures ApplyUID(ApplyParams(order, rt, oldEscape), uid) == Simultaneous(rt, ValuesAndUid(params, oldEscape, uid))
  {
    ValuesReorder(order, params, oldEscape);
    IndependentReorder(order, params, oldEscape);
    forall k | 0 <= k < |order| ensures SafeValue(Quoted(order[k].value, oldEscape), UID) {
      var j :| 0 <= j < |params| && params[j] == order[k];
    }
    UidLast(order, rt, oldEscape, uid);
  }

  /** A value that can feed the uid variable gives a template on which the two orders differ. */
  lemma UidUnsafe(params: seq<Param>, oldEscape: bool, uid: string, k: nat) returns (rt: string)
    requires PlainNames(params) && DistinctNames(params) && Independent(params, oldEscape) && '$' !in uid
    requires k < |params| && !SafeValue(Quoted(params[k].value, oldEscape), UID)
    ensures SafeText(rt, ValuesAndUid(params, oldEscape, uid).Keys)
    ensures ApplyUID(ApplyParams(params, rt, oldEscape), uid) != ApplyParams(params, ApplyUID(rt, uid), oldEscape)
  {
    var steps, a := StepsOf(params, oldEscape), StepOf(params[k], oldEscape);
    StepsValid(params, oldEscape);
    ParamTokenIsToken(params[k].name);
    UidFits(params[k].name);
    EncodedSafe(params[k].value, oldEscape, UID);
    var tail := FedText(a, UID);
    rt := a.token + tail;
    UidKeysAreTokens(params, oldEscape, uid);
    OneOpenIsSafe(rt, ValuesAndUid(params, oldEscape, uid).Keys);
    UidOnFront(params, oldEscape, k, tail);
    OtherTokenAbsent(a.token, tail, UID);
    ReplaceAbsent(rt, UID, uid);
    assert uid != UID by { assert UID[0] in UID; }
    ReplaceChanges(a.value + tail, UID, uid);
  }

  lemma UidKeysAreTokens(params: seq<Param>, oldEscape: bool, uid: string)
    requires PlainNames(params)
    ensures forall t :: t in ValuesAndUid(params, oldEscape, uid) ==> IsToken(t)
  {
    StepsValid(params, oldEscape);
    UidFits("");
  }

  /** With independent values, only the front variable's own step acts on such a template. */
  lemma UidOnFront(params: seq<Param>, oldEscape: bool, k: nat, tail: string)
    requires PlainNames(params) && DistinctNames(params) && Independent(params, oldEscape) && k < |params|
    requires OpensOnlyInFront(ParamToken(params[k].name) + tail)
    requires forall i :: 0 <= i < |tail| ==> !OpensAt(tail, i)
    ensures ApplyParams(params, ParamToken(params[k].name) + tail, oldEscape) ==
            Encoded(params[k].value, oldEscape) + tail
  {
    var before, later := StepsOf(params[..k], oldEscape), StepsOf(params[k + 1..], oldEscape);
    var a := StepOf(params[k], oldEscape);
    StepsAround(params, oldEscape, k);
    StepsValid(params, oldEscape);
    LaterAbsent(params, oldEscape, k, tail);
    forall i | 0 <= i < |before| ensures before[i].token != a.token {
      ParamTokensFit(params[i].name, params[k].name);
    }
    hide SafeValue, Encoded, Independent, ApplySeq, Occurs, ParamToken, ValidSteps, PlainNames, DistinctNames;
    ApplyFront(before, a, tail, later);
    ApplyAbsent(a.value + tail, later, []);
    assert later + [] == later;
    ApplyNone(a.value + tail);
  }

  lemma StepsAround(params: seq<Param>, oldEscape: bool, k: nat)
    requires k < |params|
    ensures StepsOf(params, oldEscape) ==
      StepsOf(params[..k], oldEscape) + [StepOf(params[k], oldEscape)] + StepsOf(params[k + 1..], oldEscape)
  {
    hide Encoded, ParamToken;
  }

  /** Behind the value of one parameter and plain text the later variables do not occur. */
  lemma LaterAbsent(params: seq<Param>, oldEscape: bool, k: nat, tail: string)
    requires PlainNames(params) && Independent(params, oldEscape) && k < |params|
    requires forall i :: 0 <= i < |tail| ==> !OpensAt(tail, i)
    ensures var later := StepsOf(params[k + 1..], oldEscape);
      forall i :: 0 <= i < |later| ==> !Occurs(later[i].token, Encoded(params[k].value, oldEscape) + tail)
  {
    var later := StepsOf(params[k + 1..], oldEscape);
    IndependentSteps(params, oldEscape);
    hide SafeValue, Encoded, Independent, Occurs;
    forall i | 0 <= i < |later| ensures !Occurs(later[i].token, Encoded(params[k].value, oldEscape) + tail) {
      var j := k + 1 + i;
      assert params[k + 1..][i] == params[j];
      ParamTokenIsToken(params[j].name);
      SafeThenPlainAbsent(Encoded(params[k].value, oldEscape), tail, ParamToken(params[j].name));
    }
  }

  /** Given independent values, the uid step commutes with the parameter steps exactly when no
      value can feed the uid variable. */
  lemma UidCommutes(params: seq<Param>, oldEscape: bool, uid: string)
    requires PlainNames(params) && DistinctNames(params) && Independent(params, oldEscape) && '$' !in uid
    ensures UidSafe(params, oldEscape) <==>
      forall rt :: SafeText(rt, ValuesAndUid(params, oldEscape, uid).Keys) ==>
        ApplyUID(ApplyParams(params, rt, oldEscape), uid) == ApplyParams(params, ApplyUID(rt, uid), oldEscape)
  {
    if UidSafe(params, oldEscape) {
      forall rt | SafeText(rt, ValuesAndUid(params, oldEscape, uid).Keys)
        ensures ApplyUID(ApplyParams(params, rt, oldEscape), uid) == ApplyParams(params, ApplyUID(rt, uid), oldEscape)
      {
        UidLast(params, rt, oldEscape, uid);
        UidFirst(params, rt, oldEscape, uid);
      }
    } else {
      var k :| 0 <= k < |params| && !SafeValue(Quoted(params[k].value, oldEscape), UID);
      var rt := UidUnsafe(params, oldEscape, uid, k);
    }
  }
}
