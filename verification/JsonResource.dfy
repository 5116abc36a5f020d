/** All parameters and the uid spliced into the inside of a JSON string literal, and what the literal
    then stands for. */
module JsonResource {
  import opened Text
  import opened Wrappers
  import opened Substitution
  import opened Scanner
  import opened Bindings
  import opened Templates
  import opened TemplateMeaning
  import opened Pipeline
  import opened JsonText
  import opened JsonSplice

  /** The parameters as the event stage hands them on: strings marshalled without their quotes. */
  function Marshalled(ps: seq<Param>): (ms: seq<Param>)
    ensures |ms| == |ps|
    ensures forall k :: 0 <= k < |ps| ==> ms[k] == Param(ps[k].name, ResultText(Str(ps[k].value)))
  {
    seq(|ps|, k requires 0 <= k < |ps| => Param(ps[k].name, ResultText(Str(ps[k].value))))
  }

  // ---- Well-formedness, with no condition on values or order -------------------------

  predicate JsonNames(ps: seq<Param>) {
    forall k :: 0 <= k < |ps| ==> NoOpens(ps[k].name) && JsonPlain(ps[k].name)
  }

  /** However many string results are spliced into a well-formed literal, in whatever order and
      whatever they hold, it stays well formed; so it does with a uid that JSON writes as it is. */
  lemma {:induction false} ParamsKeepWellFormed(ps: seq<Param>, lit: string, uid: string)
    requires JsonNames(ps) && Decode(lit).Some? && WrittenText(uid, false) == uid
    ensures Decode(ApplyParams(Marshalled(ps), lit, false)).Some?
    ensures Decode(ApplyUID(ApplyParams(Marshalled(ps), lit, false), uid)).Some?
    decreases |ps|
  {
    hide Decode, WrittenText, ReplaceAll, ApplySeq, EscapeTekton;
    if ps == [] {
      ApplyNone(lit);
    } else {
      var n := |ps| - 1;
      ParamsKeepWellFormed(ps[..n], lit, uid);
      LastParam(ps, lit);
      StringResultWellFormed(ps[n].name, ps[n].value, ApplyParams(Marshalled(ps[..n]), lit, false));
    }
    UidIsPlain();
    SpliceKeepsWellFormed(ApplyParams(Marshalled(ps), lit, false), UID, uid);
  }

  lemma UidIsPlain()
    ensures IsToken(UID) && JsonPlain(UID)
  {
    UidFits("");
  }

  lemma LastParam(ps: seq<Param>, lit: string)
    requires ps != []
    ensures var n := |ps| - 1; var last := Param(ps[n].name, ResultText(Str(ps[n].value)));
      ApplyParams(Marshalled(ps), lit, false) ==
      ApplyParamToResourceTemplate(last, ApplyParams(Marshalled(ps[..n]), lit, false), false)
  {
    hide ApplySeq, ReplaceAll, ResultText;
    var n := |ps| - 1;
    var last := Param(ps[n].name, ResultText(Str(ps[n].value)));
    var before := StepsOf(Marshalled(ps[..n]), false);
    assert StepsOf(Marshalled(ps), false) == before + [StepOf(last, false)];
    ApplyOneMore(lit, before, StepOf(last, false));
  }

  // ---- The simultaneous meaning of a literal -----------------------------------------

  /** Variables that are written plainly and can stand side by side. */
  ghost predicate Variables(values: map<string, string>) {
    && "" !in values
    && (forall t :: t in values ==> IsToken(t) && JsonPlain(t))
    && (forall t, m :: t in values && m in values ==> Compatible(t, m))
  }

  /** The values as JSON writes them. */
  function WrittenValues(values: map<string, string>): map<string, string> {
    map t | t in values :: WrittenText(values[t], false)
  }

  /** Wherever the decoded text shows a variable, the literal spells it. */
  ghost predicate AllSpelt(s: string, tokens: set<string>)
    requires Decode(s).Some?
  {
    forall t :: t in tokens ==> ShownIsSpelt(s, t)
  }

  /** The text behind the variables with empty values that it starts with. */
  ghost function BehindEmpty(s: string, values: map<string, string>): string
    requires "" !in values
    decreases |s|
  {
    if exists t :: t in values && values[t] == "" && t <= s then
      var t :| t in values && values[t] == "" && t <= s;
      BehindEmpty(s[|t|..], values)
    else s
  }

  /** Nowhere do only variables with empty values stand between a high surrogate escape and a low
      one. */
  ghost predicate HalvesApart(s: string, values: map<string, string>)
    requires "" !in values && Decode(s).Some?
    decreases |s|
  {
    s == "" ||
    (!(LoneHigh(s) && Low(Code(BehindEmpty(s[6..], values)))) && HalvesApart(s[FirstUnit(s).len..], values))
  }

  lemma {:induction false} PlainTail(s: string, w: string, k: nat, values: map<string, string>)
    requires JsonPlain(w) && w <= s && k <= |w| && Decode(s).Some? && "" !in values
    ensures Decode(s[k..]).Some?
    ensures AllSpelt(s, values.Keys) ==> AllSpelt(s[k..], values.Keys)
    ensures HalvesApart(s, values) ==> HalvesApart(s[k..], values)
    decreases k
  {
    if k == 0 {
      assert s[0..] == s;
    } else {
      PlainTail(s, w, k - 1, values);
      var r := s[k - 1..];
      assert r[0] == w[k - 1] && r[1..] == s[k..];
    }
  }

  lemma {:induction false} PassNoDollar(w: string, rest: string, values: map<string, string>)
    requires "" !in values && (forall t :: t in values ==> IsToken(t)) && forall i :: 0 <= i < |w| ==> w[i] != '$'
    ensures Simultaneous(w + rest, values) == w + Simultaneous(rest, values)
    decreases |w|
  {
    hide Simultaneous, IsToken;
    if w == "" {
      assert w + rest == rest && w + Simultaneous(rest, values) == Simultaneous(rest, values);
    } else {
      var c, r := w[0], w[1..];
      assert w == [c] + r;
      Associates([c], r, rest);
      forall t | t in values ensures !(t <= [c] + (r + rest)) { TokenNotInFront(t, [c] + (r + rest)); }
      PassNoDollar(r, rest, values);
      SimultaneousChar(c, r + rest, values);
      Associates([c], r, Simultaneous(rest, values));
    }
  }

  /** A unit that starts no variable stays. */
  lemma {:induction false} PassUnit(s: string, values: map<string, string>)
    requires "" !in values && (forall t :: t in values ==> IsToken(t) && !(t <= s))
    requires s != "" && FirstUnit(s).Unit?
    ensures var n := FirstUnit(s).len; Simultaneous(s, values) == s[..n] + Simultaneous(s[n..], values)
  {
    var n := FirstUnit(s).len;
    if n == 1 {
      assert s[..1] == [s[0]];
    } else {
      EscapeHasNoDollar(s);
      PassNoDollar(s[..n], s[n..], values);
      assert s[..n] + s[n..] == s;
    }
  }

  lemma WrittenVariables(values: map<string, string>)
    requires Variables(values)
    ensures Variables(WrittenValues(values))
  {
  }

  /** What a low escape in front of the result comes from. */
  lemma {:induction false} LowFromBehind(s: string, values: map<string, string>)
    requires Variables(values) && Decode(s).Some? && "" !in WrittenValues(values)
    ensures Low(Code(Simultaneous(s, WrittenValues(values)))) ==> Low(Code(BehindEmpty(s, values)))
    decreases |s|
  {
    var written := WrittenValues(values);
    WrittenVariables(values);
    if s == "" {
    } else if exists t :: t in values && t <= s {
      var t :| t in values && t <= s;
      DecodeBehind(s, t);
      LowFromBehind(s[|t|..], values);
      LowAtVariable(s, t, values);
    } else {
      PassUnit(s, written);
      LowInFront(s, Simultaneous(s[FirstUnit(s).len..], written));
    }
  }

  lemma LowAtVariable(s: string, t: string, values: map<string, string>)
    requires Variables(values) && Variables(WrittenValues(values)) && t in values && t <= s
    requires Low(Code(Simultaneous(s[|t|..], WrittenValues(values)))) ==> Low(Code(BehindEmpty(s[|t|..], values)))
    ensures Low(Code(Simultaneous(s, WrittenValues(values)))) ==> Low(Code(BehindEmpty(s, values)))
  {
    var written, r := WrittenValues(values), s[|t|..];
    assert s == t + r;
    SimultaneousToken(t, r, written);
    hide Code, Simultaneous, WrittenText, BehindEmpty, Variables, JsonPlain;
    if values[t] == "" {
      NothingWritten();
      assert "" + Simultaneous(r, written) == Simultaneous(r, written);
      BehindFront(s, t, values);
    } else {
      WrittenNotLow(values[t], false, Simultaneous(r, written));
    }
  }

  lemma BehindFront(s: string, t: string, values: map<string, string>)
    requires Variables(values) && t in values && values[t] == "" && t <= s
    ensures BehindEmpty(s, values) == BehindEmpty(s[|t|..], values)
  {
    forall m | m in values && m <= s ensures m == t { PrefixesCompare(t, m, s); }
  }

  lemma NothingWritten()
    ensures WrittenText("", false) == ""
  {
  }

  /** Decoding commutes with the simultaneous substitution of all variables. */
  lemma {:induction false} SimultaneousDecodes(s: string, values: map<string, string>)
    requires Variables(values) && Decode(s).Some? && AllSpelt(s, values.Keys) && HalvesApart(s, values)
    ensures "" !in WrittenValues(values)
    ensures Decode(Simultaneous(s, WrittenValues(values))) == Some(Simultaneous(Decode(s).value, values))
    decreases |s|
  {
    WrittenVariables(values);
    if s == "" {
    } else if exists t :: t in values && t <= s {
      var t :| t in values && t <= s;
      PlainTail(s, t, |t|, values);
      SimultaneousDecodes(s[|t|..], values);
      DecodesAtVariable(s, t, values);
    } else {
      SimultaneousDecodes(s[FirstUnit(s).len..], values);
      DecodesAtUnit(s, values);
    }
  }

  lemma {:induction false} DecodesAtVariable(s: string, t: string, values: map<string, string>)
    requires Variables(values) && Variables(WrittenValues(values)) && t in values && t <= s && Decode(s).Some?
    requires Decode(s[|t|..]).Some?
    requires var r := s[|t|..];
      Decode(Simultaneous(r, WrittenValues(values))) == Some(Simultaneous(Decode(r).value, values))
    ensures Decode(Simultaneous(s, WrittenValues(values))) == Some(Simultaneous(Decode(s).value, values))
  {
    var written, r := WrittenValues(values), s[|t|..];
    assert s == t + r;
    DecodeBehind(s, t);
    SimultaneousToken(t, r, written);
    SimultaneousToken(t, Decode(r).value, values);
    hide Decode, Simultaneous, WrittenText;
    DecodeWritten(values[t], Simultaneous(r, written));
  }

  lemma {:induction false} DecodesAtUnit(s: string, values: map<string, string>)
    requires Variables(values) && Variables(WrittenValues(values)) && s != "" && Decode(s).Some?
    requires forall t :: t in values ==> !(t <= s)
    requires AllSpelt(s, values.Keys) && HalvesApart(s, values)
    requires var r := s[FirstUnit(s).len..];
      Decode(Simultaneous(r, WrittenValues(values))) == Some(Simultaneous(Decode(r).value, values))
    ensures Decode(Simultaneous(s, WrittenValues(values))) == Some(Simultaneous(Decode(s).value, values))
  {
    var written, u, d := WrittenValues(values), FirstUnit(s), Decode(s).value;
    var r := s[u.len..];
    PassUnit(s, written);
    forall t | t in values ensures !(t <= d) { assert ShownIsSpelt(s, t); }
    assert d == [u.c] + Decode(r).value && d[1..] == Decode(r).value;
    assert Simultaneous(d, values) == [u.c] + Simultaneous(Decode(r).value, values);
    LowFromBehind(r, values);
    assert LoneHigh(s) ==> u.len == 6;
    assert !(LoneHigh(s) && Low(Code(BehindEmpty(s[6..], values))));
    hide Simultaneous, AllSpelt, HalvesApart;
    JoinedDecodes(s, Simultaneous(r, written));
  }

  // ---- The source's list of parameters and the uid -----------------------------------

  /** A clean string is written as a clean text. */
  lemma {:induction false} WrittenClean(v: string)
    requires CleanValue(v)
    ensures CleanValue(WrittenText(v, false))
    ensures v != "" ==> WrittenText(v, false) != "" && (v[0] != '(' ==> WrittenText(v, false)[0] != '(')
    decreases |v|
  {
    if v != "" {
      var w, rest := Written(v[0], false), WrittenText(v[1..], false);
      CleanTail(v);
      WrittenClean(v[1..]);
      WrittenPlain(v[0], false);
      assert !OpensAt(v, 0);
      hide Written, WrittenText, CleanValue;
      if v[0] == '$' {
        LastIsNoDollar(v);
        CleanBehindDollar(rest);
      } else {
        NoDollarIsClean(w);
        CleanAppend(w, rest);
      }
      assert (w + rest)[0] == w[0];
    }
  }

  lemma LastIsNoDollar(v: string)
    requires CleanValue(v) && v != ""
    ensures v == [v[0]] ==> v[0] != '$'
    ensures |v| > 1 ==> !(v[0] == '$' && v[1..][0] == '(')
  {
    assert !OpensAt(v, 0);
  }

  lemma CleanBehindDollar(rest: string)
    requires CleanValue(rest) && rest != "" && rest[0] != '('
    ensures CleanValue("$" + rest)
  {
    var s := "$" + rest;
    forall i | 0 <= i < |s| ensures !OpensAt(s, i) { if i > 0 { assert !OpensAt(rest, i - 1); } }
    assert s[|s| - 1] == rest[|rest| - 1];
  }

  lemma NoDollarIsClean(w: string)
    requires forall i :: 0 <= i < |w| ==> w[i] != '$'
    ensures CleanValue(w)
  {
  }

  /** What the marshalled parameters put for each variable is what JSON writes for the original. */
  lemma MarshalledValues(ps: seq<Param>, uid: string)
    requires PlainNames(ps) && DistinctNames(ps) && WrittenText(uid, false) == uid
    ensures ValuesAndUid(Marshalled(ps), false, uid) == WrittenValues(ValuesAndUid(ps, false, uid))
  {
    var ms := Marshalled(ps);
    var a, b := Values(ms, false), Values(ps, false);
    hide Values, WrittenText, EscapeTekton;
    forall t | t in a ensures t in b { SameVariables(ms, ps, t); }
    forall t | t in b ensures t in a && a[t] == WrittenText(b[t], false) {
      SameVariables(ps, ms, t);
      MarshalledValue(ps, t);
    }
  }

  lemma SameVariables(ps: seq<Param>, qs: seq<Param>, t: string)
    requires |ps| == |qs| && forall k :: 0 <= k < |ps| ==> ps[k].name == qs[k].name
    requires t in Values(ps, false)
    ensures t in Values(qs, false)
  {
    var k := FirstWinsFrom(StepsOf(ps, false), t);
    assert StepsOf(qs, false)[k].token == t;
  }

  lemma MarshalledValue(ps: seq<Param>, t: string)
    requires PlainNames(ps) && DistinctNames(ps) && t in Values(ps, false) && t in Values(Marshalled(ps), false)
    ensures Values(Marshalled(ps), false)[t] == WrittenText(Values(ps, false)[t], false)
  {
    var k := FirstWinsFrom(StepsOf(ps, false), t);
    hide Values, WrittenText, EscapeTekton, FirstWins;
    ValueAt(ps, false, k);
    ValueAt(Marshalled(ps), false, k);
    EscapeCommutes(ps[k].value, false);
  }

  lemma MarshalledClean(ps: seq<Param>)
    requires CleanParams(ps)
    ensures CleanParams(Marshalled(ps))
  {
    forall k | 0 <= k < |ps| ensures CleanValue(Marshalled(ps)[k].value) { WrittenClean(ps[k].value); }
  }

  lemma ResourceVariables(ps: seq<Param>, uid: string)
    requires CleanParams(ps) && JsonNames(ps)
    ensures Variables(ValuesAndUid(ps, false, uid))
  {
    var values := ValuesAndUid(ps, false, uid);
    hide IsExpression, IsToken, Compatible;
    ResourceTokens(ps, false, uid);
    ExpressionsFit(values.Keys);
    UidIsPlain();
    forall t | t in Values(ps, false) ensures JsonPlain(t) {
      var k := FirstWinsFrom(StepsOf(ps, false), t);
      TokenJsonPlain(ps[k].name);
    }
  }

  /** The whole literal: with bracket-free names and clean original strings, a literal whose
      expressions are complete and not behind a `$`, that spells every variable it shows and keeps
      surrogate halves apart, the literal after all parameters, in any order, and the uid decodes to
      the simultaneous substitution of the original strings in the decoded literal. */
  lemma LiteralMeaning(order: seq<Param>, ps: seq<Param>, lit: string, uid: string)
    requires CleanParams(ps) && DistinctNames(ps) && JsonNames(ps) && Reorders(order, Marshalled(ps))
    requires Validated(lit) && NoDollarBeforeExpr(lit) && '$' !in uid && WrittenText(uid, false) == uid
    requires Decode(lit).Some? && AllSpelt(lit, ValuesAndUid(ps, false, uid).Keys)
    requires HalvesApart(lit, ValuesAndUid(ps, false, uid))
    ensures Decode(ApplyUID(ApplyParams(order, lit, false), uid)) ==
      Some(Simultaneous(Decode(lit).value, ValuesAndUid(ps, false, uid)))
  {
    hide Decode, WrittenText, Simultaneous, Validated, NoDollarBeforeExpr, HalvesApart, AllSpelt, CleanParams,
         ApplyParams, Variables, ValuesAndUid;
    MarshalledClean(ps);
    CleanSteps(ps, false);
    MarshalledValues(ps, uid);
    ResourceVariables(ps, uid);
    CleanResource(order, Marshalled(ps), lit, false, uid);
    SimultaneousDecodes(lit, ValuesAndUid(ps, false, uid));
  }
}
