/** The bindings of a trigger, embedded or by reference, as one list of parameters; the admission
    check on a binding's parameters; and what both together make of the event stage. */
module BindingRefs {
  import opened Wrappers
  import opened Substitution
  import opened Scanner
  import opened Bindings

  /** `value` is `None` where the source has a nil pointer. */
  datatype SpecBinding = SpecBinding(name: string, value: Option<string>, ref: string, cluster: bool)

  type Getter = string -> Option<seq<Param>>

  /** The parameters one binding stands for; `None` if it is invalid or not found. */
  function ParamsOf(b: SpecBinding, getTB: Getter, getCTB: Getter): Option<seq<Param>> {
    if b.name != "" && b.value.Some? then Some([Param(b.name, b.value.value)])
    else if b.ref != "" && b.cluster then getCTB(b.ref)
    else if b.ref != "" then getTB(b.ref)
    else None
  }

  function Joined(bs: seq<SpecBinding>, getTB: Getter, getCTB: Getter): Option<seq<Param>> {
    if bs == [] then Some([])
    else
      var before := Joined(bs[..|bs| - 1], getTB, getCTB);
      var last := ParamsOf(bs[|bs| - 1], getTB, getCTB);
      if before.None? || last.None? then None else Some(before.value + last.value)
  }

  lemma {:induction false} JoinFails(bs: seq<SpecBinding>, n: nat, getTB: Getter, getCTB: Getter)
    requires n <= |bs| && Joined(bs[..n], getTB, getCTB).None?
    ensures Joined(bs, getTB, getCTB).None?
    decreases |bs|
  {
    if n == |bs| {
      assert bs[..n] == bs;
    } else {
      var m := |bs| - 1;
      assert bs[..m][..n] == bs[..n];
      JoinFails(bs[..m], n, getTB, getCTB);
    }
  }

  /** Succeeds exactly when every binding resolves and no name comes twice. */
  method ResolveBindingsToParams(bs: seq<SpecBinding>, getTB: Getter, getCTB: Getter) returns (r: Result<seq<Param>>)
    ensures r.Ok? <==> Joined(bs, getTB, getCTB).Some? && DistinctNames(Joined(bs, getTB, getCTB).value)
    ensures r.Ok? ==> Joined(bs, getTB, getCTB) == Some(r.value)
  {
    var params: seq<Param> := [];
    var i := 0;
    while i < |bs|
      invariant 0 <= i <= |bs| && Joined(bs[..i], getTB, getCTB) == Some(params)
    {
      assert bs[..i + 1][..i] == bs[..i];
      var p := ParamsOf(bs[i], getTB, getCTB);
      if p.None? {
        JoinFails(bs, i + 1, getTB, getCTB);
        return Err("error getting TriggerBinding " + bs[i].name);
      }
      params := params + p.value;
      i := i + 1;
    }
    assert bs[..i] == bs;
    var distinct := CheckNames(params);
    return if distinct then Ok(params) else Err("duplicate param name");
  }

  method CheckNames(params: seq<Param>) returns (ok: bool)
    ensures ok <==> DistinctNames(params)
  {
    var seen: set<string> := {};
    var i := 0;
    while i < |params|
      invariant 0 <= i <= |params|
      invariant forall n :: n in seen <==> exists j :: 0 <= j < i && params[j].name == n
      invariant forall j, k :: 0 <= j < k < i ==> params[j].name != params[k].name
    {
      if params[i].name in seen { return false; }
      seen := seen + {params[i].name};
      i := i + 1;
    }
    return true;
  }

  /** Admission of a binding: distinct names, and every value passes the check on values. */
  method ValidateParams(params: seq<Param>) returns (ok: bool)
    ensures ok <==> DistinctNames(params) && forall k :: 0 <= k < |params| ==> Validated(params[k].value)
  {
    hide Validated;
    var seen: set<string> := {};
    var i := 0;
    while i < |params|
      invariant 0 <= i <= |params|
      invariant forall n :: n in seen <==> exists j :: 0 <= j < i && params[j].name == n
      invariant forall j, k :: 0 <= j < k < i ==> params[j].name != params[k].name
      invariant forall j :: 0 <= j < i ==> Validated(params[j].value)
    {
      if params[i].name in seen { return false; }
      seen := seen + {params[i].name};
      var valid := ValidateParamValue(params[i].value);
      if !valid { return false; }
      i := i + 1;
    }
    return true;
  }

  /** No event value that reaches a parameter's text holds `$(` or ends in `$`. */
  ghost predicate CleanEvents(p: Param, eval: Evaluator, fallback: Option<string>) {
    forall o :: o in OriginalsFrom(p.value, 0) && |o| >= 3 && Contribution(o, eval, fallback).Some? ==>
      CleanValue(Contribution(o, eval, fallback).value)
  }

  /** The whole event stage on an admitted binding: every bound parameter has in the map the
      simultaneous substitution of its own expressions, failed ones by its own default. */
  lemma AdmittedParamsMeaning(params: seq<Param>, declared: bool, defaults: map<string, string>, eval: Evaluator,
                              k: nat)
    requires DistinctNames(params) && forall i :: 0 <= i < |params| ==> Validated(params[i].value)
    requires ResolveAll(params, declared, defaults, eval).Some? && k < |params|
    requires NoDollarBeforeExpr(params[k].value)
    requires CleanEvents(params[k], eval, Fallback(params[k].name, declared, defaults))
    ensures var m := ResolveAll(params, declared, defaults, eval).value; var p := params[k];
      var fallback := Fallback(p.name, declared, defaults);
      && p.name in m && ResolveValue(p.value, eval, fallback).Some?
      && "" !in EventValues(p.value, eval, fallback)
      && m[p.name] == Simultaneous(p.value, EventValues(p.value, eval, fallback))
  {
    hide *;
    var p := params[k];
    var fallback := Fallback(p.name, declared, defaults);
    BoundParam(params, declared, defaults, eval, k);
    EventValuesExact(p.value, eval, fallback);
    CleanEventValues(p, eval, fallback);
    AdmittedValueMeaning(p.value, eval, fallback);
  }

  lemma CleanEventValues(p: Param, eval: Evaluator, fallback: Option<string>)
    requires ResolveValue(p.value, eval, fallback).Some? && CleanEvents(p, eval, fallback)
    ensures forall o :: o in EventValues(p.value, eval, fallback) ==>
      CleanValue(EventValues(p.value, eval, fallback)[o])
  {
    hide ResolveValue, EventValues, CleanValue, Contribution, OriginalsFrom;
    EventValuesExact(p.value, eval, fallback);
  }

  /** A binding with a name and a value is that parameter, whatever it refers to; a cluster reference is
      looked up among the cluster bindings only, any other among the namespace's only; and nothing
      else is a binding. */
  lemma ParamsOfExact(b: SpecBinding, getTB: Getter, getCTB: Getter, other: Getter)
    ensures b.name != "" && b.value.Some? ==>
      ParamsOf(b, getTB, getCTB) == ParamsOf(b, other, other) == Some([Param(b.name, b.value.value)])
    ensures b.value.None? && b.ref != "" && b.cluster ==>
      ParamsOf(b, getTB, getCTB) == ParamsOf(b, other, getCTB) == getCTB(b.ref)
    ensures b.value.None? && b.ref != "" && !b.cluster ==>
      ParamsOf(b, getTB, getCTB) == ParamsOf(b, getTB, other) == getTB(b.ref)
    ensures b.ref == "" && (b.name == "" || b.value.None?) ==> ParamsOf(b, getTB, getCTB).None?
  {
  }

  /** The list of several bindings is their lists one after the other. */
  lemma {:induction false} JoinedInTurn(a: seq<SpecBinding>, b: seq<SpecBinding>, getTB: Getter, getCTB: Getter)
    ensures Joined(a + b, getTB, getCTB) ==
      var x, y := Joined(a, getTB, getCTB), Joined(b, getTB, getCTB);
      if x.None? || y.None? then None else Some(x.value + y.value)
    decreases |b|
  {
    hide ParamsOf;
    if b == [] {
      assert a + b == a;
      var x := Joined(a, getTB, getCTB);
      if x.Some? { assert x.value + [] == x.value; }
    } else {
      var n := |b| - 1;
      JoinedInTurn(a, b[..n], getTB, getCTB);
      assert (a + b)[..|a| + n] == a + b[..n] && (a + b)[|a| + n] == b[n];
      var x, y, z := Joined(a, getTB, getCTB), Joined(b[..n], getTB, getCTB), ParamsOf(b[n], getTB, getCTB);
      if x.Some? && y.Some? && z.Some? { assert x.value + (y.value + z.value) == (x.value + y.value) + z.value; }
    }
  }

  lemma JoinedOne(b: SpecBinding, getTB: Getter, getCTB: Getter)
    ensures Joined([b], getTB, getCTB) == ParamsOf(b, getTB, getCTB)
  {
    hide ParamsOf;
    assert [b][..0] == [];
    var p := ParamsOf(b, getTB, getCTB);
    if p.Some? { assert [] + p.value == p.value; }
  }
}
