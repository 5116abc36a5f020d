/** The resource stage: resolved parameters spliced into the raw text of a resource template,
    then the uid; and what escaping does to a value. */
module Templates {
  import opened Text
  import opened Substitution
  import opened Scanner
  import opened Bindings

  // ---- Escaping ----------------------------------------------------------------------

  /** Double the `$` of every `$(`, so that Tekton takes it as text. */
  function EscapeTekton(v: string): string {
    ReplaceAll(v, "$(", "$$(")
  }

  function UnescapeTekton(v: string): string {
    ReplaceAll(v, "$$(", "$(")
  }

  /** An escaped value never starts with `$(`; otherwise its first character is the value's. */
  lemma {:induction false} EscapeFront(v: string)
    ensures EscapeTekton(v) == "" <==> v == ""
    ensures v != "" ==> EscapeTekton(v)[0] == v[0]
    ensures !OpensAt(EscapeTekton(v), 0)
    decreases |v|
  {
    if v != "" && !("$(" <= v) {
      EscapeFront(v[1..]);
      assert EscapeTekton(v) == [v[0]] + EscapeTekton(v[1..]);
    }
  }

  /** Unescaping undoes escaping. */
  lemma {:induction false} EscapeRoundTrip(v: string)
    ensures UnescapeTekton(EscapeTekton(v)) == v
    decreases |v|
  {
    var e := EscapeTekton(v);
    if v == "" {
    } else if "$(" <= v {
      EscapeRoundTrip(v[2..]);
      assert e[3..] == EscapeTekton(v[2..]);
      assert "$(" + v[2..] == v;
    } else {
      EscapeRoundTrip(v[1..]);
      EscapeFront(v[1..]);
      assert e[1..] == EscapeTekton(v[1..]);
      OpensTail(e, 1, 0);
      assert [v[0]] + v[1..] == v;
    }
  }

  /** Escaping is injective. */
  lemma EscapeInjective(v: string, w: string)
    requires EscapeTekton(v) == EscapeTekton(w)
    ensures v == w
  {
    EscapeRoundTrip(v);
    EscapeRoundTrip(w);
  }

  /** Escaping adds one character per `$(`. */
  lemma {:induction false} EscapeLength(v: string)
    ensures |EscapeTekton(v)| == |v| + OpenCount(v, 0)
    decreases |v|
  {
    if v == "" {
    } else if "$(" <= v {
      EscapeLength(v[2..]);
      OpenCountTail(v, 2, 0);
      assert OpenCount(v, 0) == 1 + OpenCount(v, 2) by { assert OpenCount(v, 1) == OpenCount(v, 2); }
    } else {
      EscapeLength(v[1..]);
      OpenCountTail(v, 1, 0);
    }
  }

  lemma {:induction false} OpenCountTail(v: string, k: nat, p: nat)
    requires k <= |v|
    ensures OpenCount(v[k..], p) == OpenCount(v, k + p)
    decreases |v| - p
  {
    OpensTail(v, k, p);
    if p < |v[k..]| { OpenCountTail(v, k, p + 1); }
  }

  /** Every `$(` of an escaped value has a `$` in front of it. */
  lemma {:induction false} EscapeCovers(v: string, i: nat)
    requires OpensAt(EscapeTekton(v), i)
    ensures i > 0 && EscapeTekton(v)[i - 1] == '$'
    decreases |v|
  {
    EscapeFront(v);
    var e := EscapeTekton(v);
    if "$(" <= v {
      assert e[..3] == "$$(" && e[3..] == EscapeTekton(v[2..]);
      if i >= 3 {
        OpensTail(e, 3, i - 3);
        EscapeCovers(v[2..], i - 3);
        assert e[3..][i - 4] == e[i - 1];
      }
    } else {
      assert e[1..] == EscapeTekton(v[1..]);
      OpensTail(e, 1, i - 1);
      EscapeCovers(v[1..], i - 1);
      assert e[1..][i - 2] == e[i - 1];
    }
  }

  /** Against a text that neither holds `$(` nor ends in `$`, a value and its escaped form compare
      the same. */
  lemma {:induction false} EscapeComparable(v: string, x: string)
    requires NoOpens(x) && (x != "" ==> x[|x| - 1] != '$')
    ensures Comparable(EscapeTekton(v), x) <==> Comparable(v, x)
    decreases |v|
  {
    var e := EscapeTekton(v);
    if v == "" || x == "" {
      assert "" <= e && "" <= v && "" <= x;
    } else if "$(" <= v {
      assert e[..3] == "$$(" && v[..2] == "$(";
      assert e[0] == e[..3][0] && e[1] == e[..3][1] && e[2] == e[..3][2];
      assert !OpensAt(x, 0) && (|x| > 1 ==> !OpensAt(x, 1));
    } else {
      assert e == [v[0]] + EscapeTekton(v[1..]);
      NoOpensTail(x);
      EscapeComparable(v[1..], x[1..]);
      ComparableTail(v, x);
      ComparableTail(e, x);
    }
  }

  lemma NoOpensTail(x: string)
    requires NoOpens(x) && x != ""
    ensures NoOpens(x[1..])
  {
    forall i | 0 <= i < |x[1..]| ensures !OpensAt(x[1..], i) { OpensTail(x, 1, i); }
  }

  lemma ComparableTail(a: string, b: string)
    requires a != "" && b != ""
    ensures Comparable(a, b) <==> a[0] == b[0] && Comparable(a[1..], b[1..])
  {
    assert a == [a[0]] + a[1..] && b == [b[0]] + b[1..];
  }

  lemma SafeCons(c: char, v: string, m: string)
    ensures SafeValue([c] + v, m) <==> !Comparable([c] + v, m) && SafeValue(v, m)
  {
    var s := [c] + v;
    assert s[0..] == s;
    assert forall i :: 0 <= i < |v| ==> s[i + 1..] == v[i..];
    if !Comparable(s, m) && SafeValue(v, m) {
      forall i | 0 <= i < |s| ensures !Comparable(s[i..], m) {
        if i > 0 { assert s[i..] == v[i - 1..]; }
      }
    }
    if SafeValue(s, m) {
      forall i | 0 <= i < |v| ensures !Comparable(v[i..], m) { assert s[i + 1..] == v[i..]; }
    }
  }

  /** Escaping hides nothing: an escaped value can feed a token exactly when the value can. */
  lemma {:induction false} EscapeKeepsSafety(v: string, m: string)
    requires IsToken(m)
    ensures SafeValue(EscapeTekton(v), m) <==> SafeValue(v, m)
    decreases |v|
  {
    if v == "" {
    } else if "$(" <= v {
      EscapeKeepsSafety(v[2..], m);
      SafetyBehindOpen(v, m);
    } else {
      EscapeKeepsSafety(v[1..], m);
      var e := EscapeTekton(v[1..]);
      assert EscapeTekton(v) == [v[0]] + e && v == [v[0]] + v[1..];
      EscapeFront(v[1..]);
      SafeCons(v[0], e, m);
      SafeCons(v[0], v[1..], m);
      NoFrontOpen(v[0], v[1..], e, m);
    }
  }

  lemma NoFrontOpen(c: char, v: string, e: string, m: string)
    requires IsToken(m) && !("$(" <= [c] + v) && (e == "" <==> v == "") && (v != "" ==> e[0] == v[0])
    ensures Comparable([c] + e, m) <==> Comparable([c] + v, m)
  {
    if v == "" {
      assert [c] + e == [c] + v;
    } else {
      var a, b := [c] + v, [c] + e;
      assert a[0] == b[0] && a[1] == b[1];
      assert !(a[0] == '$' && a[1] == '(');
    }
  }

  lemma SafetyBehindOpen(v: string, m: string)
    requires IsToken(m) && "$(" <= v && (SafeValue(EscapeTekton(v[2..]), m) <==> SafeValue(v[2..], m))
    ensures SafeValue(EscapeTekton(v), m) <==> SafeValue(v, m)
  {
    var t, e := v[2..], EscapeTekton(v[2..]);
    assert v == "$" + ("(" + t) && EscapeTekton(v) == "$" + ("$" + ("(" + e));
    TokenRest(m);
    DoubledDollar("(" + e, m);
    hide SafeValue, Comparable, IsToken;
    SafeBehindOpen(t, m);
    SafeBehindOpen(e, m);
    SafeCons('$', "$" + ("(" + e), m);
    EscapeComparable(t, m[2..]);
  }

  lemma DoubledDollar(x: string, m: string)
    requires IsToken(m)
    ensures !Comparable("$" + ("$" + x), m)
  {
    assert ("$" + ("$" + x))[1] == '$';
  }

  /** Behind `$(` it is the rest of the token that counts. */
  lemma SafeBehindOpen(t: string, m: string)
    requires IsToken(m)
    ensures SafeValue("$" + ("(" + t), m) <==> !Comparable(t, m[2..]) && SafeValue(t, m)
  {
    var a, b := "(" + t, "$" + ("(" + t);
    hide SafeValue;
    SafeCons('(', t, m);
    SafeCons('$', a, m);
    assert a[0] != m[0] && !Comparable(a, m);
    ComparableTail(b, m);
    ComparableTail(a, m[1..]);
    assert b[1..] == a && a[1..] == t && m[1..][1..] == m[2..];
  }

  lemma TokenRest(m: string)
    requires IsToken(m)
    ensures NoOpens(m[2..]) && (m[2..] != "" ==> m[2..][|m[2..]| - 1] != '$')
  {
    forall i | 0 <= i < |m[2..]| ensures !OpensAt(m[2..], i) { OpensTail(m, 2, i); }
  }

  lemma {:induction false} EscapeNothing(v: string)
    requires NoOpens(v)
    ensures EscapeTekton(v) == v
    decreases |v|
  {
    if v != "" {
      assert !OpensAt(v, 0);
      NoOpensTail(v);
      EscapeNothing(v[1..]);
    }
  }

  /** A token as a value: escaping puts one `$` in front. */
  lemma EscapedToken(m: string)
    requires IsToken(m)
    ensures EscapeTekton(m) == "$" + m
  {
    TokenRest(m);
    assert m == "$(" + m[2..];
    hide *;
    EscapedOpen(m[2..]);
  }

  lemma {:induction false} EscapedOpen(r: string)
    requires NoOpens(r)
    ensures EscapeTekton("$(" + r) == "$" + ("$(" + r)
  {
    EscapeNothing(r);
    hide ReplaceAll, NoOpens;
    FrontStep("$(", r, "$$(");
    Associates("$", "$(", r);
    assert "$" + "$(" == "$$(";
  }

  // ---- One parameter -----------------------------------------------------------------

  const PREFIX := "$(tt.params."
  const UID := "$(uid)"

  function ParamToken(name: string): string {
    PREFIX + name + ")"
  }

  /** A value before Tekton escaping: as it is, or with its quotes escaped under old-escape. */
  function Quoted(value: string, oldEscape: bool): string {
    if oldEscape then ReplaceAll(value, "\"", "\\\"") else value
  }

  /** The text a value becomes in the template. */
  function Encoded(value: string, oldEscape: bool): string {
    EscapeTekton(Quoted(value, oldEscape))
  }

  function StepOf(p: Param, oldEscape: bool): Rewrite {
    Rewrite(ParamToken(p.name), Encoded(p.value, oldEscape))
  }

  function ApplyParamToResourceTemplate(p: Param, rt: string, oldEscape: bool): string {
    ReplaceAll(rt, ParamToken(p.name), Encoded(p.value, oldEscape))
  }

  function ApplyUID(rt: string, uid: string): string {
    ReplaceAll(rt, UID, uid)
  }

  function StepsOf(params: seq<Param>, oldEscape: bool): (steps: seq<Rewrite>)
    ensures |steps| == |params| && forall k :: 0 <= k < |params| ==> steps[k].token != ""
  {
    seq(|params|, k requires 0 <= k < |params| => StepOf(params[k], oldEscape))
  }

  /** Parameters applied to one resource template, in the order of the list. */
  method ApplyParamsToResourceTemplate(params: seq<Param>, rt: string, oldEscape: bool) returns (r: string)
    ensures r == ApplySeq(rt, StepsOf(params, oldEscape))
  {
    r := rt;
    hide ApplySeq;
    hide ReplaceAll;
    ApplyNone(rt);
    assert StepsOf(params[..0], oldEscape) == [];
    var k := 0;
    while k < |params|
      invariant 0 <= k <= |params| && r == ApplySeq(rt, StepsOf(params[..k], oldEscape))
    {
      assert StepsOf(params[..k + 1], oldEscape) == StepsOf(params[..k], oldEscape) + [StepOf(params[k], oldEscape)];
      ApplyOneMore(rt, StepsOf(params[..k], oldEscape), StepOf(params[k], oldEscape));
      r := ApplyParamToResourceTemplate(params[k], r, oldEscape);
      k := k + 1;
    }
    assert params[..k] == params;
  }

  /** The parameter list is the map, in some order. */
  ghost predicate Flattens(order: seq<Param>, m: map<string, string>) {
    DistinctNames(order) && forall p :: p in order <==> p.name in m && m[p.name] == p.value
  }

  /** The map flattened in whatever order the iteration takes. */
  method ConvertParamMapToArray(values: map<string, string>) returns (params: seq<Param>)
    ensures Flattens(params, values)
  {
    params := [];
    var left := values.Keys;
    while left != {}
      invariant left <= values.Keys
      invariant DistinctNames(params)
      invariant forall p :: p in params <==> p.name in values && p.name !in left && values[p.name] == p.value
      decreases left
    {
      var name :| name in left;
      forall k | 0 <= k < |params| ensures params[k].name != name { assert params[k] in params; }
      params := params + [Param(name, values[name])];
      left := left - {name};
    }
  }

  /** All resources of a template, with one uid for all of them. */
  method ResolveResources(templates: seq<string>, params: seq<Param>, oldEscape: bool, uid: string)
    returns (resources: array<string>)
    ensures resources.Length == |templates|
    ensures forall i :: 0 <= i < |templates| ==>
      resources[i] == ApplyUID(ApplySeq(templates[i], StepsOf(params, oldEscape)), uid)
  {
    resources := new string[|templates|];
    hide ApplySeq;
    hide ReplaceAll;
    var i := 0;
    while i < |templates|
      invariant 0 <= i <= |templates|
      invariant forall j :: 0 <= j < i ==>
        resources[j] == ApplyUID(ApplySeq(templates[j], StepsOf(params, oldEscape)), uid)
    {
      resources[i] := ApplyParamsToResourceTemplate(params, templates[i], oldEscape);
      resources[i] := ApplyUID(resources[i], uid);
      i := i + 1;
    }
  }

  // ---- Parameter tokens --------------------------------------------------------------

  /** A name that cannot close its own variable or open another. */
  predicate PlainName(name: string) {
    ')' !in name && NoOpens(name)
  }

  lemma ParamTokenIsToken(name: string)
    requires NoOpens(name)
    ensures IsToken(ParamToken(name))
  {
    var t := ParamToken(name);
    forall i | 0 < i < |t| ensures !OpensAt(t, i) {
      if i >= |PREFIX| { assert !OpensAt(name, i - |PREFIX|); }
    }
  }

  lemma ParamTokensFit(n: string, m: string)
    requires PlainName(n) && PlainName(m)
    ensures Compatible(ParamToken(n), ParamToken(m))
    ensures ParamToken(n) == ParamToken(m) ==> n == m
  {
    if |n| < |m| {
      ShorterName(n, m);
    } else if |m| < |n| {
      ShorterName(m, n);
    } else {
      var a := |PREFIX|;
      assert n == ParamToken(n)[a..a + |n|] && m == ParamToken(m)[a..a + |n|];
    }
  }

  lemma ShorterName(n: string, m: string)
    requires PlainName(m) && |n| < |m|
    ensures !(ParamToken(n) <= ParamToken(m))
  {
    var a := |PREFIX|;
    assert ParamToken(n)[a + |n|] == ')';
    assert ParamToken(m)[a + |n|] == m[|n|];
    assert m[|n|] in m;
  }

  lemma UidFits(n: string)
    ensures IsToken(UID) && !Comparable(ParamToken(n), UID)
  {
    assert ParamToken(n)[2] == 't' && UID[2] == 'u';
  }

  predicate PlainNames(params: seq<Param>) {
    forall k :: 0 <= k < |params| ==> PlainName(params[k].name)
  }

  lemma StepsValid(params: seq<Param>, oldEscape: bool)
    requires PlainNames(params)
    ensures ValidSteps(StepsOf(params, oldEscape))
  {
    var steps := StepsOf(params, oldEscape);
    forall k | 0 <= k < |steps| ensures IsToken(steps[k].token) { ParamTokenIsToken(params[k].name); }
    forall j, k | 0 <= j < |steps| && 0 <= k < |steps| ensures Compatible(steps[j].token, steps[k].token) {
      ParamTokensFit(params[j].name, params[k].name);
    }
  }
}
