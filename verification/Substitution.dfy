/** Splicing values into text by one `ReplaceAll` after another, against the meaning the
    engine intends: every token replaced at the same time.

    A text is cut into a `Doc` of plain characters and tokens.  A step of the sequence is
    harmless exactly as long as the characters around the remaining tokens can neither be nor
    become part of a token; `Clear` says that for one token and survives every harmless step. */
module Substitution {
  import opened Text

  /** One step: replace every `token` by `value`. */
  datatype Rewrite = Rewrite(token: string, value: string)

  /** The source's form: the steps one after another over one growing text. */
  function ApplySeq(s: string, steps: seq<Rewrite>): string
    requires forall k :: 0 <= k < |steps| ==> steps[k].token != ""
    decreases |steps|
  {
    if steps == [] then s
    else ApplySeq(ReplaceAll(s, steps[0].token, steps[0].value), steps[1..])
  }

  lemma ApplyNone(s: string)
    ensures ApplySeq(s, []) == s
  {
  }

  lemma {:induction false} ApplyOneMore(s: string, steps: seq<Rewrite>, last: Rewrite)
    requires last.token != "" && forall k :: 0 <= k < |steps| ==> steps[k].token != ""
    ensures ApplySeq(s, steps + [last]) == ReplaceAll(ApplySeq(s, steps), last.token, last.value)
    decreases |steps|
  {
    var all := steps + [last];
    if steps == [] {
      assert all[1..] == [];
    } else {
      assert all[1..] == steps[1..] + [last];
      ApplyOneMore(ReplaceAll(s, steps[0].token, steps[0].value), steps[1..], last);
    }
  }

  /** The intended meaning: one pass, each token found in the original text becomes its value. */
  ghost function Simultaneous(s: string, values: map<string, string>): string
    requires "" !in values
    decreases |s|
  {
    if s == "" then ""
    else if exists t :: t in values && t <= s then
      var t :| t in values && t <= s;
      values[t] + Simultaneous(s[|t|..], values)
    else [s[0]] + Simultaneous(s[1..], values)
  }

  /** A map of the steps; a token that is repeated keeps its first value. */
  function FirstWins(steps: seq<Rewrite>): (m: map<string, string>)
    ensures forall t :: t in m <==> exists k :: 0 <= k < |steps| && steps[k].token == t
  {
    if steps == [] then map[]
    else
      var m := FirstWins(steps[1..]);
      assert forall k :: 1 <= k < |steps| ==> steps[1..][k - 1] == steps[k];
      m[steps[0].token := steps[0].value]
  }

  /** A value in the map of steps comes from a step. */
  lemma {:induction false} FirstWinsFrom(steps: seq<Rewrite>, t: string) returns (k: nat)
    requires t in FirstWins(steps)
    ensures k < |steps| && steps[k] == Rewrite(t, FirstWins(steps)[t])
    decreases |steps|
  {
    if steps[0].token == t {
      k := 0;
    } else {
      k := FirstWinsFrom(steps[1..], t);
      k := k + 1;
    }
  }

  // ---- Tokens ------------------------------------------------------------------------

  predicate OpensAt(s: string, i: int) {
    0 <= i < |s| - 1 && s[i] == '$' && s[i + 1] == '('
  }

  predicate NoOpens(s: string) {
    forall i :: 0 <= i < |s| ==> !OpensAt(s, i)
  }

  /** A token opens with `$(`, has no second `$(`, and does not end in `$`. */
  predicate IsToken(t: string) {
    OpensAt(t, 0) && (forall i :: 0 < i < |t| ==> !OpensAt(t, i)) && t[|t| - 1] != '$'
  }

  /** Tokens that can stand side by side in one text: equal, or neither a prefix of the other. */
  predicate Compatible(t: string, m: string) {
    t == m || !Comparable(t, m)
  }

  /** No suffix of a value is comparable with `m`: the value holds no `m`, and its end is not
      the beginning of one. */
  predicate SafeValue(v: string, m: string) {
    forall i :: 0 <= i < |v| ==> !Comparable(v[i..], m)
  }

  /** The text just before a token is never the beginning of `m`. */
  ghost predicate SafeBefore(s: string, tokens: set<string>, m: string) {
    forall i, j, t :: 0 <= i < j <= |s| && t in tokens && t <= s[j..] ==> !(s[i..j] < m)
  }

  /** The text just before a token is never the beginning of a token. */
  ghost predicate SafeText(s: string, tokens: set<string>) {
    forall m :: m in tokens ==> SafeBefore(s, tokens, m)
  }

  // ---- Documents ---------------------------------------------------------------------

  datatype Doc = End | Ch(c: char, rest: Doc) | Tk(t: string, rest: Doc)

  function Render(d: Doc): string {
    match d
    case End => ""
    case Ch(c, r) => [c] + Render(r)
    case Tk(t, r) => t + Render(r)
  }

  /** The plain characters before the first token. */
  function Lead(d: Doc): string {
    if d.Ch? then [d.c] + Lead(d.rest) else ""
  }

  predicate LeadsToToken(d: Doc) {
    match d
    case End => false
    case Ch(_, r) => LeadsToToken(r)
    case Tk(_, _) => true
  }

  /** Plain text in front of a document. */
  function Chars(v: string, d: Doc): Doc {
    if v == "" then d else Ch(v[0], Chars(v[1..], d))
  }

  function Subst(d: Doc, m: string, v: string): Doc {
    match d
    case End => End
    case Ch(c, r) => Ch(c, Subst(r, m, v))
    case Tk(t, r) => if t == m then Chars(v, Subst(r, m, v)) else Tk(t, Subst(r, m, v))
  }

  function SubstMap(d: Doc, values: map<string, string>): Doc {
    match d
    case End => End
    case Ch(c, r) => Ch(c, SubstMap(r, values))
    case Tk(t, r) => if t in values then Chars(values[t], SubstMap(r, values)) else Tk(t, SubstMap(r, values))
  }

  /** Every token of the document is a token compatible with `m`. */
  predicate TokensFit(d: Doc, m: string) {
    match d
    case End => true
    case Ch(_, r) => TokensFit(r, m)
    case Tk(t, r) => IsToken(t) && Compatible(t, m) && TokensFit(r, m)
  }

  /** No plain character starts an `m`, nor could it after some token behind it is replaced. */
  predicate Clear(d: Doc, m: string) {
    match d
    case End => true
    case Tk(_, r) => Clear(r, m)
    case Ch(_, r) =>
      && Clear(r, m)
      && !(m <= Lead(d))
      && (LeadsToToken(d) ==> !(Lead(d) <= m))
  }

  lemma LeadRender(d: Doc)
    ensures Lead(d) <= Render(d)
    ensures !LeadsToToken(d) ==> Lead(d) == Render(d)
  {
  }

  lemma {:induction false} CharsRender(v: string, d: Doc)
    ensures Render(Chars(v, d)) == v + Render(d)
  {
    if v == "" {
      assert v + Render(d) == Render(d);
    } else {
      CharsRender(v[1..], d);
      assert [v[0]] + (v[1..] + Render(d)) == v + Render(d);
    }
  }

  lemma {:induction false} CharsLead(v: string, d: Doc)
    ensures Lead(Chars(v, d)) == v + Lead(d)
    ensures LeadsToToken(Chars(v, d)) == LeadsToToken(d)
  {
    if v == "" {
      assert v + Lead(d) == Lead(d);
    } else {
      CharsLead(v[1..], d);
      assert [v[0]] + (v[1..] + Lead(d)) == v + Lead(d);
    }
  }

  // ---- One step ----------------------------------------------------------------------

  /** Inside another token nothing matches, so replacement passes over it. */
  lemma {:induction false} SkipToken(t: string, k: nat, rest: string, m: string, v: string)
    requires IsToken(t) && IsToken(m) && 0 < k <= |t|
    ensures ReplaceAll(t[k..] + rest, m, v) == t[k..] + ReplaceAll(rest, m, v)
    decreases |t| - k
  {
    hide ReplaceAll;
    if k == |t| {
      assert t[k..] + rest == rest && t[k..] + ReplaceAll(rest, m, v) == ReplaceAll(rest, m, v);
    } else {
      NotInsideToken(t, k, rest, m);
      SkipToken(t, k + 1, rest, m, v);
      assert t[k..] == [t[k]] + t[k + 1..];
      Associates([t[k]], t[k + 1..], rest);
      CharStep(t[k], t[k + 1..] + rest, m, v);
      Associates([t[k]], t[k + 1..], ReplaceAll(rest, m, v));
    }
  }

  lemma NotInsideToken(t: string, k: nat, rest: string, m: string)
    requires IsToken(t) && IsToken(m) && 0 < k < |t|
    ensures !(m <= t[k..] + rest)
  {
    var s := t[k..] + rest;
    assert !OpensAt(t, k) && s[0] == t[k];
    if k + 1 < |t| { assert s[1] == t[k + 1]; }
  }

  lemma NotAtToken(t: string, rest: string, m: string)
    requires Compatible(t, m) && t != m
    ensures !(m <= t + rest)
  {
    assert t <= t + rest;
    if m <= t + rest { PrefixesCompare(t, m, t + rest); }
  }

  lemma {:induction false} PassToken(t: string, rest: string, m: string, v: string)
    requires IsToken(t) && IsToken(m) && Compatible(t, m) && t != m
    ensures ReplaceAll(t + rest, m, v) == t + ReplaceAll(rest, m, v)
  {
    NotAtToken(t, rest, m);
    SkipToken(t, 1, rest, m, v);
    hide ReplaceAll, Compatible;
    assert t == [t[0]] + t[1..];
    Associates([t[0]], t[1..], rest);
    CharStep(t[0], t[1..] + rest, m, v);
    Associates([t[0]], t[1..], ReplaceAll(rest, m, v));
  }

  /** A step on the text of a document is the step on the document. */
  lemma {:induction false} ReplaceRendered(d: Doc, m: string, v: string)
    requires IsToken(m) && Clear(d, m) && TokensFit(d, m)
    ensures ReplaceAll(Render(d), m, v) == Render(Subst(d, m, v))
  {
    match d
    case End =>
    case Ch(c, r) =>
      ReplaceRendered(r, m, v);
      LeadRender(d);
      if m <= Render(d) {
        PrefixesCompare(m, Lead(d), Render(d));
        assert false;
      }
      assert Render(d)[1..] == Render(r);
    case Tk(t, r) =>
      ReplaceRendered(r, m, v);
      if t == m {
        CharsRender(v, Subst(r, m, v));
        assert Render(d)[|m|..] == Render(r);
      } else {
        PassToken(t, Render(r), m, v);
      }
  }

  lemma SubstFits(d: Doc, t: string, v: string, m: string)
    requires TokensFit(d, m)
    ensures TokensFit(Subst(d, t, v), m)
  {
    match d
    case End =>
    case Ch(_, r) => SubstFits(r, t, v, m);
    case Tk(t', r) =>
      SubstFits(r, t, v, m);
      if t' == t { CharsFit(v, Subst(r, t, v), m); }
  }

  lemma CharsFit(v: string, d: Doc, m: string)
    requires TokensFit(d, m)
    ensures TokensFit(Chars(v, d), m)
  {
  }

  lemma {:induction false} SubstLead(d: Doc, t: string, v: string)
    ensures Lead(d) <= Lead(Subst(d, t, v))
    ensures !LeadsToToken(d) ==> Lead(Subst(d, t, v)) == Lead(d) && !LeadsToToken(Subst(d, t, v))
  {
    if d.Ch? {
      SubstLead(d.rest, t, v);
    }
  }

  lemma {:induction false} CharsClear(v: string, d: Doc, m: string)
    requires SafeValue(v, m) && Clear(d, m)
    ensures Clear(Chars(v, d), m)
  {
    if v != "" {
      forall i | 0 <= i < |v[1..]| ensures !Comparable(v[1..][i..], m) {
        assert v[1..][i..] == v[i + 1..];
      }
      CharsClear(v[1..], d, m);
      CharsLead(v, d);
      assert v[0..] == v;
      IncomparableExtends(v, Lead(d), m);
    }
  }

  /** A step with a safe value leaves the document clear of every other token. */
  lemma {:induction false} SubstClear(d: Doc, t: string, v: string, m: string)
    requires Clear(d, m) && SafeValue(v, m)
    ensures Clear(Subst(d, t, v), m)
  {
    match d
    case End =>
    case Tk(t', r) =>
      SubstClear(r, t, v, m);
      if t' == t { CharsClear(v, Subst(r, t, v), m); }
    case Ch(_, r) =>
      SubstClear(r, t, v, m);
      SubstLead(d, t, v);
      if LeadsToToken(d) {
        var a := Lead(d);
        var b := Lead(Subst(d, t, v))[|a|..];
        IncomparableExtends(a, b, m);
        assert a + b == Lead(Subst(d, t, v));
      }
  }

  // ---- The whole sequence ------------------------------------------------------------

  lemma SubstMapChars(v: string, d: Doc, values: map<string, string>)
    ensures SubstMap(Chars(v, d), values) == Chars(v, SubstMap(d, values))
  {
  }

  lemma {:induction false} SubstThenMap(d: Doc, t: string, v: string, values: map<string, string>)
    ensures SubstMap(Subst(d, t, v), values) == SubstMap(d, values[t := v])
  {
    match d
    case End =>
    case Ch(_, r) => SubstThenMap(r, t, v, values);
    case Tk(t', r) =>
      SubstThenMap(r, t, v, values);
      if t' == t { SubstMapChars(v, Subst(r, t, v), values); }
  }

  lemma SubstMapEmpty(d: Doc)
    ensures SubstMap(d, map[]) == d
  {
  }

  ghost predicate ValidSteps(steps: seq<Rewrite>) {
    && (forall k :: 0 <= k < |steps| ==> IsToken(steps[k].token))
    && (forall j, k :: 0 <= j < |steps| && 0 <= k < |steps| ==> Compatible(steps[j].token, steps[k].token))
  }

  /** No value can feed a later step. */
  ghost predicate SafeOrder(steps: seq<Rewrite>) {
    forall j, k :: 0 <= j < k < |steps| ==> SafeValue(steps[j].value, steps[k].token)
  }

  lemma {:induction false} ApplyOnDoc(d: Doc, steps: seq<Rewrite>)
    requires ValidSteps(steps) && SafeOrder(steps)
    requires forall k :: 0 <= k < |steps| ==> Clear(d, steps[k].token) && TokensFit(d, steps[k].token)
    ensures ApplySeq(Render(d), steps) == Render(SubstMap(d, FirstWins(steps)))
    decreases |steps|
  {
    if steps == [] {
      SubstMapEmpty(d);
    } else {
      var step, later := steps[0], steps[1..];
      var d' := Subst(d, step.token, step.value);
      ReplaceRendered(d, step.token, step.value);
      forall k | 0 <= k < |later| ensures Clear(d', later[k].token) && TokensFit(d', later[k].token) {
        assert later[k] == steps[k + 1];
        SubstClear(d, step.token, step.value, later[k].token);
        SubstFits(d, step.token, step.value, later[k].token);
      }
      ApplyOnDoc(d', later);
      SubstThenMap(d, step.token, step.value, FirstWins(later));
    }
  }

  // ---- Cutting a text ----------------------------------------------------------------

  ghost function Parse(s: string, tokens: set<string>): Doc
    requires "" !in tokens
    decreases |s|
  {
    if s == "" then End
    else if exists t :: t in tokens && t <= s then
      var t :| t in tokens && t <= s;
      Tk(t, Parse(s[|t|..], tokens))
    else Ch(s[0], Parse(s[1..], tokens))
  }

  lemma {:induction false} ParseRender(s: string, tokens: set<string>)
    requires "" !in tokens
    ensures Render(Parse(s, tokens)) == s
    decreases |s|
  {
    if s == "" {
    } else if exists t :: t in tokens && t <= s {
      var t := Parse(s, tokens).t;
      ParseRender(s[|t|..], tokens);
      assert t + s[|t|..] == s;
    } else {
      ParseRender(s[1..], tokens);
      assert [s[0]] + s[1..] == s;
    }
  }

  lemma {:induction false} ParseFits(s: string, tokens: set<string>, m: string)
    requires "" !in tokens
    requires forall t :: t in tokens ==> IsToken(t) && Compatible(t, m)
    ensures TokensFit(Parse(s, tokens), m)
    decreases |s|
  {
    if s == "" {
    } else if exists t :: t in tokens && t <= s {
      ParseFits(s[|Parse(s, tokens).t|..], tokens, m);
    } else {
      ParseFits(s[1..], tokens, m);
    }
  }

  lemma {:induction false} ParseLead(s: string, tokens: set<string>)
    requires "" !in tokens
    ensures Lead(Parse(s, tokens)) <= s
    ensures LeadsToToken(Parse(s, tokens)) ==>
      exists t :: t in tokens && t <= s[|Lead(Parse(s, tokens))|..]
    decreases |s|
  {
    var d := Parse(s, tokens);
    if d.Ch? {
      ParseLead(s[1..], tokens);
      assert s[1..][|Lead(d.rest)|..] == s[|Lead(d)|..];
    } else if d.Tk? {
      assert s[0..] == s;
      assert d.t in tokens && d.t <= s[0..];
    }
  }

  lemma SafeBeforeTail(s: string, tokens: set<string>, m: string, k: nat)
    requires SafeBefore(s, tokens, m) && k <= |s|
    ensures SafeBefore(s[k..], tokens, m)
  {
    var r := s[k..];
    forall i, j, t | 0 <= i < j <= |r| && t in tokens && t <= r[j..] ensures !(r[i..j] < m) {
      assert r[j..] == s[k + j..] && r[i..j] == s[k + i..k + j];
    }
  }

  lemma {:induction false} ParseClear(s: string, tokens: set<string>, m: string)
    requires "" !in tokens && SafeBefore(s, tokens, m) && (m in tokens || !Occurs(m, s))
    ensures Clear(Parse(s, tokens), m)
    decreases |s|
  {
    var d := Parse(s, tokens);
    if d.Tk? {
      SafeBeforeTail(s, tokens, m, |d.t|);
      OccursTail(m, s, |d.t|);
      ParseClear(s[|d.t|..], tokens, m);
    } else if d.Ch? {
      SafeBeforeTail(s, tokens, m, 1);
      OccursTail(m, s, 1);
      ParseClear(s[1..], tokens, m);
      ParseLead(s, tokens);
      var run := Lead(d);
      assert s[0..|run|] == run && s[0..] == s;
    }
  }

  lemma {:induction false} SimultaneousIsSubst(s: string, values: map<string, string>)
    requires "" !in values
    requires forall t, m :: t in values && m in values ==> Compatible(t, m)
    ensures Simultaneous(s, values) == Render(SubstMap(Parse(s, values.Keys), values))
    decreases |s|
  {
    if s == "" {
    } else if exists t :: t in values && t <= s {
      var d := Parse(s, values.Keys);
      var t := d.t;
      forall m | m in values && m <= s ensures m == t {
        PrefixesCompare(t, m, s);
      }
      SimultaneousIsSubst(s[|t|..], values);
      CharsRender(values[t], SubstMap(d.rest, values));
    } else {
      SimultaneousIsSubst(s[1..], values);
    }
  }

  /** The order-sensitive sequence of rewrites means simultaneous substitution, whenever no
      value can feed a later step and no token stands right behind the beginning of one. */
  lemma {:induction false} SequentialIsSimultaneous(s: string, steps: seq<Rewrite>)
    requires ValidSteps(steps) && SafeOrder(steps)
    requires SafeText(s, FirstWins(steps).Keys)
    ensures ApplySeq(s, steps) == Simultaneous(s, FirstWins(steps))
  {
    var values := FirstWins(steps);
    var d := Parse(s, values.Keys);
    ParseRender(s, values.Keys);
    forall k | 0 <= k < |steps|
      ensures Clear(d, steps[k].token) && TokensFit(d, steps[k].token)
    {
      ParseClear(s, values.Keys, steps[k].token);
      ParseFits(s, values.Keys, steps[k].token);
    }
    ApplyOnDoc(d, steps);
    SimultaneousIsSubst(s, values);
  }

  // ---- What is left afterwards -------------------------------------------------------

  lemma {:induction false} SubstMapLead(d: Doc, values: map<string, string>)
    ensures Lead(d) <= Lead(SubstMap(d, values))
    ensures !LeadsToToken(d) ==> Lead(SubstMap(d, values)) == Lead(d) && !LeadsToToken(SubstMap(d, values))
  {
    if d.Ch? {
      SubstMapLead(d.rest, values);
    }
  }

  lemma {:induction false} SubstMapClear(d: Doc, values: map<string, string>, m: string)
    requires Clear(d, m) && forall t :: t in values ==> SafeValue(values[t], m)
    ensures Clear(SubstMap(d, values), m)
  {
    match d
    case End =>
    case Tk(t, r) =>
      SubstMapClear(r, values, m);
      if t in values { CharsClear(values[t], SubstMap(r, values), m); }
    case Ch(_, r) =>
      SubstMapClear(r, values, m);
      SubstMapLead(d, values);
      if LeadsToToken(d) {
        var a := Lead(d);
        var b := Lead(SubstMap(d, values))[|a|..];
        IncomparableExtends(a, b, m);
        assert a + b == Lead(SubstMap(d, values));
      }
  }

  predicate OnlyChars(d: Doc) {
    d.End? || (d.Ch? && OnlyChars(d.rest))
  }

  lemma CharsOnly(v: string, d: Doc)
    requires OnlyChars(d)
    ensures OnlyChars(Chars(v, d))
  {
  }

  lemma {:induction false} ParseSubstMapOnly(s: string, values: map<string, string>)
    requires "" !in values
    ensures OnlyChars(SubstMap(Parse(s, values.Keys), values))
    decreases |s|
  {
    var d := Parse(s, values.Keys);
    if d.Tk? {
      ParseSubstMapOnly(s[|d.t|..], values);
      CharsOnly(values[d.t], SubstMap(d.rest, values));
    } else if d.Ch? {
      ParseSubstMapOnly(s[1..], values);
    }
  }

  lemma {:induction false} ClearTextHasNone(d: Doc, m: string)
    requires OnlyChars(d) && Clear(d, m) && m != ""
    ensures !Occurs(m, Render(d))
  {
    if d.Ch? {
      ClearTextHasNone(d.rest, m);
      OnlyCharsLead(d);
      assert Render(d)[1..] == Render(d.rest);
      if Occurs(m, Render(d)) { OccursInTail(m, Render(d)); }
    }
  }

  lemma OnlyCharsLead(d: Doc)
    requires OnlyChars(d)
    ensures Render(d) == Lead(d)
  {
  }

  /** A token no value can produce, and that was not in the text or is itself replaced, is not in
      the result. */
  lemma {:induction false} NothingLeft(s: string, values: map<string, string>, m: string)
    requires "" !in values && IsToken(m)
    requires forall t, t' :: t in values && t' in values ==> Compatible(t, t')
    requires SafeBefore(s, values.Keys, m) && (m in values || !Occurs(m, s))
    requires forall t :: t in values ==> SafeValue(values[t], m)
    ensures !Occurs(m, Simultaneous(s, values))
  {
    var d := Parse(s, values.Keys);
    ParseClear(s, values.Keys, m);
    SubstMapClear(d, values, m);
    ParseSubstMapOnly(s, values);
    ClearTextHasNone(SubstMap(d, values), m);
    SimultaneousIsSubst(s, values);
  }

  // ---- An unsafe value does harm -----------------------------------------------------

  /** `s` has a token at its front and no other `$(`. */
  predicate OpensOnlyInFront(s: string) {
    forall i :: 0 < i < |s| ==> !OpensAt(s, i)
  }

  lemma TokenOpens(t: string, s: string, j: nat)
    requires IsToken(t) && j <= |s| && t <= s[j..]
    ensures OpensAt(s, j)
  {
    assert s[j..][0] == '$' && s[j..][1] == '(';
  }

  lemma {:induction false} ApplyAbsent(s: string, steps: seq<Rewrite>, more: seq<Rewrite>)
    requires forall k :: 0 <= k < |steps| ==> steps[k].token != "" && !Occurs(steps[k].token, s)
    requires forall k :: 0 <= k < |more| ==> more[k].token != ""
    ensures ApplySeq(s, steps + more) == ApplySeq(s, more)
    decreases |steps|
  {
    if steps == [] {
      assert steps + more == more;
    } else {
      ReplaceAbsent(s, steps[0].token, steps[0].value);
      assert (steps + more)[1..] == steps[1..] + more;
      ApplyAbsent(s, steps[1..], more);
    }
  }

  lemma {:induction false} SimultaneousAbsent(s: string, values: map<string, string>)
    requires forall t :: t in values ==> t != "" && !Occurs(t, s)
    ensures Simultaneous(s, values) == s
    decreases |s|
  {
    if s != "" {
      assert s[0..] == s;
      forall t | t in values ensures !Occurs(t, s[1..]) { OccursTail(t, s, 1); }
      SimultaneousAbsent(s[1..], values);
    }
  }

  /** A token followed by what the value needs to become (or show) the token `m`. */
  lemma FedText(a: Rewrite, m: string) returns (tail: string)
    requires IsToken(a.token) && IsToken(m) && !SafeValue(a.value, m)
    ensures OpensOnlyInFront(a.token + tail)
    ensures forall i :: 0 <= i < |tail| ==> !OpensAt(tail, i)
    ensures tail != "" ==> tail[|tail| - 1] != '$'
    ensures Occurs(m, a.value + tail)
  {
    var v := a.value;
    var i :| 0 <= i < |v| && Comparable(v[i..], m);
    var x := v[i..];
    tail := if m <= x then "" else m[|x|..];
    assert (v + tail)[i..] == x + tail;
    assert m <= x + tail && Occurs(m, v + tail);
    if !(m <= x) { TokenTail(m, |x|); }
    hide Occurs, IsToken, Comparable;
    BehindFront(a.token, tail);
  }

  lemma TokenTail(m: string, u: nat)
    requires IsToken(m) && 0 < u <= |m|
    ensures NoOpens(m[u..]) && (m[u..] != "" ==> m[u..][|m[u..]| - 1] != '$')
  {
    forall k | 0 <= k < |m[u..]| ensures !OpensAt(m[u..], k) { assert !OpensAt(m, u + k); }
  }

  lemma BehindFront(t: string, tail: string)
    requires IsToken(t) && NoOpens(tail)
    ensures OpensOnlyInFront(t + tail)
  {
    var s := t + tail;
    forall k | 0 < k < |s| ensures !OpensAt(s, k) {
      if k < |t| {
        assert !OpensAt(t, k);
      } else {
        assert !OpensAt(tail, k - |t|);
      }
    }
  }

  /** In a text with one `$(`, in front, a compatible token other than the first is absent. */
  lemma OtherTokenAbsent(t: string, tail: string, m: string)
    requires IsToken(t) && IsToken(m) && Compatible(t, m) && t != m && OpensOnlyInFront(t + tail)
    ensures !Occurs(m, t + tail)
  {
    var s := t + tail;
    forall j | 0 <= j <= |s| ensures !(m <= s[j..]) {
      if m <= s[j..] {
        TokenOpens(m, s, j);
        assert s[0..] == s && t <= s;
        PrefixesCompare(t, m, s);
      }
    }
  }

  lemma NoOpenNoToken(tail: string, m: string)
    requires IsToken(m) && forall i :: 0 <= i < |tail| ==> !OpensAt(tail, i)
    ensures !Occurs(m, tail)
  {
    forall j | 0 <= j <= |tail| ensures !(m <= tail[j..]) {
      if m <= tail[j..] { TokenOpens(m, tail, j); }
    }
  }

  lemma SafeThenPlainAbsent(v: string, tail: string, m: string)
    requires IsToken(m) && SafeValue(v, m) && forall i :: 0 <= i < |tail| ==> !OpensAt(tail, i)
    ensures !Occurs(m, v + tail)
  {
    var s := v + tail;
    forall j | 0 <= j <= |s| ensures !(m <= s[j..]) {
      if j < |v| {
        assert s[j..] == v[j..] + tail;
        IncomparableExtends(v[j..], tail, m);
      } else {
        assert s[j..] == tail[j - |v|..];
        NoOpenNoToken(tail, m);
      }
    }
  }

  lemma OneOpenIsSafe(s: string, tokens: set<string>)
    requires OpensOnlyInFront(s) && forall t :: t in tokens ==> IsToken(t)
    ensures SafeText(s, tokens)
  {
    forall m, j, t | m in tokens && 0 < j <= |s| && t in tokens ensures !(t <= s[j..]) {
      if t <= s[j..] { TokenOpens(t, s, j); }
    }
  }

  /** A token in front becomes its value, and the rest is on its own. */
  lemma SimultaneousToken(t: string, rest: string, values: map<string, string>)
    requires "" !in values && t in values && forall m :: m in values ==> Compatible(t, m)
    ensures Simultaneous(t + rest, values) == values[t] + Simultaneous(rest, values)
  {
    var s := t + rest;
    assert t <= s && s[|t|..] == rest;
    forall m | m in values && m <= s ensures m == t { PrefixesCompare(t, m, s); }
  }

  /** Without a token in front the first character stays. */
  lemma SimultaneousChar(c: char, r: string, values: map<string, string>)
    requires "" !in values && forall t :: t in values ==> !(t <= [c] + r)
    ensures Simultaneous([c] + r, values) == [c] + Simultaneous(r, values)
  {
    assert ([c] + r)[1..] == r;
  }

  lemma TokenNotInFront(t: string, s: string)
    requires IsToken(t) && !OpensAt(s, 0)
    ensures !(t <= s)
  {
    assert t[0] == '$' && t[1] == '(';
  }

  /** Text without `$(` stays, in front of nothing or of another `$`. */
  lemma {:induction false} SimultaneousPlain(s: string, rest: string, values: map<string, string>)
    requires "" !in values && forall m :: m in values ==> IsToken(m)
    requires NoOpens(s) && (rest != "" ==> rest[0] == '$')
    ensures Simultaneous(s + rest, values) == s + Simultaneous(rest, values)
    decreases |s|
  {
    hide Simultaneous, IsToken;
    if s == "" {
      assert s + rest == rest && s + Simultaneous(rest, values) == Simultaneous(rest, values);
    } else {
      var c, r := s[0], s[1..];
      assert s == [c] + r && !OpensAt(s, 0);
      Associates([c], r, rest);
      assert !OpensAt([c] + (r + rest), 0);
      forall m | m in values ensures !(m <= [c] + (r + rest)) { TokenNotInFront(m, [c] + (r + rest)); }
      forall i | 0 <= i < |r| ensures !OpensAt(r, i) { assert !OpensAt(s, i + 1); }
      SimultaneousPlain(r, rest, values);
      SimultaneousChar(c, r + rest, values);
      Associates([c], r, Simultaneous(rest, values));
    }
  }

  /** On such a text the simultaneous meaning replaces the front token only. */
  lemma SimultaneousFront(t: string, tail: string, values: map<string, string>)
    requires "" !in values
    requires t in values && forall m :: m in values ==> IsToken(m) && Compatible(t, m)
    requires forall i :: 0 <= i < |tail| ==> !OpensAt(tail, i)
    ensures Simultaneous(t + tail, values) == values[t] + tail
  {
    SimultaneousToken(t, tail, values);
    SimultaneousPlain(tail, "", values);
    assert tail + "" == tail;
  }

  lemma ReplaceFront(t: string, tail: string, v: string)
    requires IsToken(t) && forall i :: 0 <= i < |tail| ==> !OpensAt(tail, i)
    ensures ReplaceAll(t + tail, t, v) == v + tail
  {
    assert t <= t + tail && (t + tail)[|t|..] == tail;
    NoOpenNoToken(tail, t);
    ReplaceAbsent(tail, t, v);
  }

  /** If a value is not safe for a token, running its step just before that token's gives a
      wrong result on some safe text. */
  lemma {:induction false} UnsafeValueMisleads(others: seq<Rewrite>, a: Rewrite, b: Rewrite) returns (s: string)
    requires ValidSteps(others + [a, b])
    requires forall k :: 0 <= k < |others| ==> others[k].token != a.token
    requires a.token != b.token && b.value != b.token && !SafeValue(a.value, b.token)
    ensures SafeText(s, FirstWins(others + [a, b]).Keys)
    ensures ApplySeq(s, others + [a, b]) != Simultaneous(s, FirstWins(others + [a, b]))
  {
    var steps := others + [a, b];
    var n := |others|;
    assert steps[n] == a && steps[n + 1] == b;
    var tail := FedText(a, b.token);
    s := a.token + tail;
    OneOpenIsSafe(s, FirstWins(steps).Keys);
    assert others + [a] + [b] == steps;
    ApplyFront(others, a, tail, [b]);
    assert ApplySeq(a.value + tail, [b]) == ReplaceAll(a.value + tail, b.token, b.value);
    ReplaceChanges(a.value + tail, b.token, b.value);
    FirstWinsAt(steps, n);
    SimultaneousFront(a.token, tail, FirstWins(steps));
  }

  /** Steps for other tokens pass such a text by; the first to act on it is the front token's. */
  lemma {:induction false} ApplyFront(others: seq<Rewrite>, a: Rewrite, tail: string, more: seq<Rewrite>)
    requires ValidSteps(others + [a] + more)
    requires forall k :: 0 <= k < |others| ==> others[k].token != a.token
    requires OpensOnlyInFront(a.token + tail)
    requires forall i :: 0 <= i < |tail| ==> !OpensAt(tail, i)
    ensures forall k :: 0 <= k < |more| ==> more[k].token != ""
    ensures ApplySeq(a.token + tail, others + [a] + more) == ApplySeq(a.value + tail, more)
  {
    var steps := others + [a] + more;
    var n := |others|;
    assert steps[n] == a;
    forall k | 0 <= k < |more| ensures more[k].token != "" { assert steps[n + 1 + k] == more[k]; }
    forall k | 0 <= k < n ensures others[k].token != "" && !Occurs(others[k].token, a.token + tail) {
      assert steps[k] == others[k];
      OtherTokenAbsent(a.token, tail, others[k].token);
    }
    assert steps == others + ([a] + more);
    ApplyAbsent(a.token + tail, others, [a] + more);
    ReplaceFront(a.token, tail, a.value);
    assert ([a] + more)[1..] == more;
  }

  /** With the token not used before, its value is the one in the map. */
  lemma {:induction false} FirstWinsAt(steps: seq<Rewrite>, n: nat)
    requires n < |steps| && forall k :: 0 <= k < n ==> steps[k].token != steps[n].token
    ensures steps[n].token in FirstWins(steps) && FirstWins(steps)[steps[n].token] == steps[n].value
    decreases n
  {
    if n > 0 {
      assert steps[1..][n - 1] == steps[n];
      forall k | 0 <= k < n - 1 ensures steps[1..][k].token != steps[n].token {
        assert steps[1..][k] == steps[k + 1];
      }
      FirstWinsAt(steps[1..], n - 1);
    }
  }
}
