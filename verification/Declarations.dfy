/** The admission check that every `$(tt.params.NAME)` of a template is declared, and what it
    buys at run time: with a value for every declared name nothing is left unresolved. */
module Declarations {
  import opened Text
  import opened Wrappers
  import opened Substitution
  import opened Bindings
  import opened Templates
  import opened TemplateMeaning

  predicate NameStart(c: char) {
    c == '_' || 'a' <= c <= 'z' || 'A' <= c <= 'Z'
  }

  predicate NameChar(c: char) {
    NameStart(c) || '0' <= c <= '9' || c == '.' || c == '-'
  }

  /** A parameter name the pattern can capture. */
  predicate GrammarName(n: string) {
    n != "" && NameStart(n[0]) && forall i :: 0 <= i < |n| ==> NameChar(n[i])
  }

  function NameEnd(raw: string, j: nat): (e: nat)
    requires j <= |raw|
    ensures j <= e <= |raw|
    ensures forall i :: j <= i < e ==> NameChar(raw[i])
    ensures e < |raw| ==> !NameChar(raw[e])
    decreases |raw| - j
  {
    if j < |raw| && NameChar(raw[j]) then NameEnd(raw, j + 1) else j
  }

  /** The pattern at one position.  Its two dots outside the group match any character of the line. */
  function MatchAt(raw: string, i: int): Option<string> {
    if 0 <= i && i + 12 < |raw| && raw[i..i + 4] == "$(tt" && raw[i + 4] != '\n' && raw[i + 5..i + 11] == "params"
       && raw[i + 11] != '\n' && NameStart(raw[i + 12]) && NameEnd(raw, i + 12) < |raw|
       && raw[NameEnd(raw, i + 12)] == ')'
    then Some(raw[i + 12..NameEnd(raw, i + 12)])
    else None
  }

  /** Nothing inside a match starts another, so searching on behind it misses none. */
  lemma MatchesApart(raw: string, i: int, j: int)
    requires MatchAt(raw, i).Some? && i < j <= NameEnd(raw, i + 12)
    ensures MatchAt(raw, j).None?
  {
    OneOpen(raw, i, j);
    hide MatchAt;
    MatchOpens(raw, j);
  }

  /** A match has no other `$(` than the one it starts with. */
  lemma OneOpen(raw: string, i: int, j: int)
    requires MatchAt(raw, i).Some? && i < j <= NameEnd(raw, i + 12)
    ensures !OpensAt(raw, j)
  {
    var e := NameEnd(raw, i + 12);
    assert raw[e] == ')' && NameStart(raw[i + 12]);
    FixedPart(raw, i, i + 4, "$(tt", j);
    FixedPart(raw, i + 5, i + 11, "params", j);
    FixedPart(raw, i + 5, i + 11, "params", j + 1);
    hide NameEnd;
    if i + 12 <= j < e { assert NameChar(raw[j]); }
  }

  lemma FixedPart(raw: string, a: nat, b: nat, part: string, j: int)
    requires a <= b <= |raw| && raw[a..b] == part
    ensures a <= j < b ==> raw[j] == part[j - a]
  {
    if a <= j < b { assert raw[a..b][j - a] == raw[j]; }
  }

  lemma MatchOpens(raw: string, j: int)
    ensures MatchAt(raw, j).Some? ==> OpensAt(raw, j)
  {
    if MatchAt(raw, j).Some? {
      assert raw[j..j + 4][0] == '$' && raw[j..j + 4][1] == '(';
    }
  }

  /** All captured names, by searching from left to right. */
  method FindParamNames(raw: string) returns (names: seq<string>)
    ensures forall n :: n in names <==> exists i :: 0 <= i < |raw| && MatchAt(raw, i) == Some(n)
  {
    names := [];
    var i := 0;
    while i < |raw|
      invariant 0 <= i
      invariant forall n :: n in names <==> exists j :: 0 <= j < i && j < |raw| && MatchAt(raw, j) == Some(n)
    {
      var m := MatchAt(raw, i);
      var next := i + 1;
      if m.Some? {
        next := NameEnd(raw, i + 12) + 1;
        forall j | i < j < next ensures MatchAt(raw, j).None? { MatchesApart(raw, i, j); }
        names := names + [m.value];
      }
      i := next;
    }
  }

  /** Every parameter variable of every template is declared. */
  ghost predicate Declared(specs: seq<ParamSpec>, templates: seq<string>) {
    forall k, i :: 0 <= k < |templates| && 0 <= i < |templates[k]| && MatchAt(templates[k], i).Some? ==>
      exists d :: 0 <= d < |specs| && specs[d].name == MatchAt(templates[k], i).value
  }

  method VerifyParamDeclarations(specs: seq<ParamSpec>, templates: seq<string>) returns (ok: bool)
    ensures ok <==> Declared(specs, templates)
  {
    var declared: set<string> := {};
    var d := 0;
    while d < |specs|
      invariant 0 <= d <= |specs|
      invariant forall n :: n in declared <==> exists c :: 0 <= c < d && specs[c].name == n
    {
      declared := declared + {specs[d].name};
      d := d + 1;
    }
    var k := 0;
    while k < |templates|
      invariant 0 <= k <= |templates|
      invariant Declared(specs, templates[..k])
    {
      var names := FindParamNames(templates[k]);
      var n := 0;
      while n < |names|
        invariant 0 <= n <= |names| && forall c :: 0 <= c < n ==> names[c] in declared
      {
        if names[n] !in declared {
          assert names[n] in names;
          var i :| 0 <= i < |templates[k]| && MatchAt(templates[k], i) == Some(names[n]);
          return false;
        }
        n := n + 1;
      }
      k := k + 1;
    }
    assert templates[..k] == templates;
    return true;
  }

  lemma GrammarNameIsPlain(n: string)
    requires GrammarName(n)
    ensures PlainName(n)
  {
  }

  lemma SamePart(raw: string, i: nat, t: string, a: nat, b: nat)
    requires i + |t| <= |raw| && raw[i..i + |t|] == t && a <= b <= |t|
    ensures raw[i + a..i + b] == t[a..b]
  {
    forall k | a <= k < b ensures raw[i + k] == t[k] { assert raw[i..i + |t|][k] == raw[i + k]; }
  }

  lemma VariableParts(n: string)
    ensures var t := ParamToken(n);
      && |t| == 13 + |n| && t[0..4] == "$(tt" && t[4..5] == "." && t[5..11] == "params" && t[11..12] == "."
      && t[12..12 + |n|] == n && t[12 + |n|..13 + |n|] == ")"
  {
  }

  /** A variable in the text is a match of the pattern. */
  lemma VariableMatches(raw: string, i: nat, n: string)
    requires GrammarName(n) && i <= |raw| && ParamToken(n) <= raw[i..]
    ensures i < |raw| && MatchAt(raw, i) == Some(n)
  {
    var t := ParamToken(n);
    var e := i + 12 + |n|;
    assert |t| == 13 + |n| && raw[i..i + |t|] == t by { assert raw[i..][..|t|] == raw[i..i + |t|]; }
    VariableParts(n);
    SamePart(raw, i, t, 0, 4);
    SamePart(raw, i, t, 4, 5);
    SamePart(raw, i, t, 5, 11);
    SamePart(raw, i, t, 11, 12);
    SamePart(raw, i, t, 12, 12 + |n|);
    SamePart(raw, i, t, 12 + |n|, 13 + |n|);
    assert raw[i + 4] == raw[i + 4..i + 5][0] && raw[i + 11] == raw[i + 11..i + 12][0] && raw[e] == raw[e..e + 1][0];
    assert raw[i..i + 4] == "$(tt" && raw[i + 5..i + 11] == "params" && raw[i + 12..e] == n && raw[e] == ')';
    hide ParamToken;
    MatchFrom(raw, i, n);
  }

  lemma MatchFrom(raw: string, i: nat, n: string)
    requires GrammarName(n) && i + 12 + |n| < |raw| && raw[i..i + 4] == "$(tt" && raw[i + 5..i + 11] == "params"
    requires raw[i + 4] != '\n' && raw[i + 11] != '\n' && raw[i + 12..i + 12 + |n|] == n && raw[i + 12 + |n|] == ')'
    ensures MatchAt(raw, i) == Some(n)
  {
    var e := i + 12 + |n|;
    forall j | i + 12 <= j < e ensures raw[j] == n[j - i - 12] { assert raw[j] == raw[i + 12..e][j - i - 12]; }
    NameEndAt(raw, i + 12, e);
  }

  lemma {:induction false} NameEndAt(raw: string, j: nat, e: nat)
    requires j <= e < |raw| && !NameChar(raw[e]) && forall i :: j <= i < e ==> NameChar(raw[i])
    ensures NameEnd(raw, j) == e
  {
    var f := NameEnd(raw, j);
    assert f < |raw| ==> !NameChar(raw[f]);
  }

  // ---- What the pattern takes for a variable -----------------------------------------

  /** A match is a variable, with the captured name, exactly when the two places the pattern leaves
      open are dots. */
  lemma MatchIsVariable(raw: string, i: nat, n: string)
    requires MatchAt(raw, i) == Some(n)
    ensures ParamToken(n) <= raw[i..] <==> raw[i + 4] == '.' && raw[i + 11] == '.'
  {
    var t, e := ParamToken(n), NameEnd(raw, i + 12);
    assert n == raw[i + 12..e];
    if raw[i + 4] == '.' && raw[i + 11] == '.' {
      var r := raw[i..];
      assert r[..4] == raw[i..i + 4] && r[5..11] == raw[i + 5..i + 11] && r[12..12 + |n|] == n;
      SpelledOut(r, n);
    } else if t <= raw[i..] {
      DotsOfVariable(raw, i, n);
    }
  }

  lemma SpelledOut(r: string, n: string)
    requires |r| > 12 + |n| && r[..4] == "$(tt" && r[4] == '.' && r[5..11] == "params" && r[11] == '.'
    requires r[12..12 + |n|] == n && r[12 + |n|] == ')'
    ensures ParamToken(n) <= r
  {
    var t := ParamToken(n);
    assert t[..4] == "$(tt" && t[4] == '.' && t[5..11] == "params" && t[11] == '.' && t[12..12 + |n|] == n;
    forall k | 0 <= k < |t| ensures t[k] == r[k] {
      if k < 4 {
        assert t[k] == t[..4][k] && r[k] == r[..4][k];
      } else if 5 <= k < 11 {
        assert t[k] == t[5..11][k - 5] && r[k] == r[5..11][k - 5];
      } else if 12 <= k < 12 + |n| {
        assert t[k] == n[k - 12] && r[k] == r[12..12 + |n|][k - 12];
      }
    }
  }

  lemma DotsOfVariable(raw: string, i: nat, n: string)
    requires i <= |raw| && ParamToken(n) <= raw[i..]
    ensures i + 11 < |raw| && raw[i + 4] == '.' && raw[i + 11] == '.'
  {
    var t := ParamToken(n);
    assert t[4] == '.' && t[11] == '.';
    assert raw[i..][4] == t[4] && raw[i..][11] == t[11];
  }

  /** Where the two places are not both dots no variable stands, of whatever name. */
  lemma LookalikeIsNoVariable(raw: string, i: nat, name: string)
    requires MatchAt(raw, i).Some? && !(raw[i + 4] == '.' && raw[i + 11] == '.')
    ensures !(ParamToken(name) <= raw[i..])
  {
    if ParamToken(name) <= raw[i..] { DotsOfVariable(raw, i, name); }
  }

  function Lookalike(x: char, y: char, name: string): string {
    "$(tt" + [x] + "params" + [y] + name + ")"
  }

  lemma LookalikeMatches(x: char, y: char, name: string)
    requires GrammarName(name) && x != '\n' && y != '\n'
    ensures MatchAt(Lookalike(x, y, name), 0) == Some(name)
  {
    var s := Lookalike(x, y, name);
    assert s[0..4] == "$(tt" && s[5..11] == "params" && s[4] == x && s[11] == y;
    assert s[12..12 + |name|] == name && s[12 + |name|] == ')';
    hide Lookalike;
    MatchFrom(s, 0, name);
  }

  /** So admission demands a declaration for such a text, of any name, although no parameters in any
      order and no uid change anything in it. */
  lemma LookalikeIsInert(x: char, y: char, name: string, specs: seq<ParamSpec>, params: seq<Param>, oldEscape: bool,
                         uid: string)
    requires GrammarName(name) && x != '\n' && y != '\n' && !(x == '.' && y == '.')
    ensures Declared(specs, [Lookalike(x, y, name)]) ==> exists d :: 0 <= d < |specs| && specs[d].name == name
    ensures ApplyUID(ApplyParams(params, Lookalike(x, y, name), oldEscape), uid) == Lookalike(x, y, name)
  {
    var s := Lookalike(x, y, name);
    LookalikeMatches(x, y, name);
    assert [s][0] == s;
    forall j | 0 < j < |s| ensures !OpensAt(s, j) { LookalikeOpens(x, y, name, j); }
    assert !(s[0 + 4] == '.' && s[0 + 11] == '.') && s[2] == 't';
    var steps := StepsOf(params, oldEscape);
    hide Declared, MatchAt, Lookalike, ApplySeq, ReplaceAll, Encoded;
    forall k | 0 <= k < |steps| ensures !Occurs(steps[k].token, s) { OnlyFront(s, params[k].name); }
    ApplyAbsent(s, steps, []);
    assert steps + [] == steps;
    NoUid(s);
    ReplaceAbsent(s, UID, uid);
  }

  lemma OnlyFront(s: string, name: string)
    requires OpensOnlyInFront(s) && |s| > 11 && !(s[4] == '.' && s[11] == '.')
    ensures !Occurs(ParamToken(name), s)
  {
    var t := ParamToken(name);
    assert t[0] == '$' && t[1] == '(';
    forall j | 0 <= j <= |s| ensures !(t <= s[j..]) {
      if t <= s[j..] {
        DotsOfVariable(s, j, name);
        assert s[j] == s[j..][0] == t[0] && s[j + 1] == s[j..][1] == t[1];
        assert OpensAt(s, j);
      }
    }
  }

  lemma NoUid(s: string)
    requires OpensOnlyInFront(s) && |s| > 11 && s[2] == 't'
    ensures !Occurs(UID, s)
  {
    forall j | 0 <= j <= |s| ensures !(UID <= s[j..]) {
      if UID <= s[j..] {
        assert s[j] == s[j..][0] == UID[0] && s[j + 1] == s[j..][1] == UID[1] && s[j + 2] == s[j..][2] == UID[2];
        assert OpensAt(s, j);
      }
    }
  }

  lemma LookalikeOpens(x: char, y: char, name: string, j: nat)
    requires GrammarName(name) && 0 < j < |Lookalike(x, y, name)|
    ensures !OpensAt(Lookalike(x, y, name), j)
  {
    var s := Lookalike(x, y, name);
    if 12 <= j < 12 + |name| { assert s[j] == name[j - 12]; }
    assert s[5..11] == "params";
    if 4 < j < 11 { assert s[j] == s[5..11][j - 5]; }
    assert s[11] == y && s[12] == name[0] && s[5] == s[5..11][0];
  }

  /** The pattern's two dots at work: this text must be declared and is never replaced. */
  lemma LookalikeInstance(params: seq<Param>, oldEscape: bool, uid: string)
    ensures !Declared([], ["$(ttXparamsYname)"])
    ensures ApplyUID(ApplyParams(params, "$(ttXparamsYname)", oldEscape), uid) == "$(ttXparamsYname)"
  {
    assert Lookalike('X', 'Y', "name") == "$(ttXparamsYname)";
    LookalikeIsInert('X', 'Y', "name", [], params, oldEscape, uid);
  }

  // ---- Nothing is left ---------------------------------------------------------------

  /** The values can make no parameter variable, declared or not, and none stands behind the
      beginning of one. */
  ghost predicate FreshVariables(params: seq<Param>, rt: string, oldEscape: bool) {
    forall n :: GrammarName(n) ==>
      && SafeBefore(rt, Values(params, oldEscape).Keys, ParamToken(n))
      && forall k :: 0 <= k < |params| ==> SafeValue(Quoted(params[k].value, oldEscape), ParamToken(n))
  }

  /** Every declared name has a value, from its default or a binding. */
  predicate Covered(specs: seq<ParamSpec>, params: seq<Param>) {
    forall d :: 0 <= d < |specs| ==> exists k :: 0 <= k < |params| && params[k].name == specs[d].name
  }

  lemma VariableGone(specs: seq<ParamSpec>, params: seq<Param>, rt: string, oldEscape: bool, n: string)
    requires Declared(specs, [rt]) && PlainNames(params) && DistinctNames(params)
    requires Covered(specs, params)
    requires FreshVariables(params, rt, oldEscape) && GrammarName(n)
    ensures !Occurs(ParamToken(n), Simultaneous(rt, Values(params, oldEscape)))
  {
    var values := Values(params, oldEscape);
    var m := ParamToken(n);
    GrammarNameIsPlain(n);
    ParamTokenIsToken(n);
    StepsValid(params, oldEscape);
    forall t | t in values ensures SafeValue(values[t], m) {
      var k := FirstWinsFrom(StepsOf(params, oldEscape), t);
      EncodedSafe(params[k].value, oldEscape, m);
    }
    if m !in values && Occurs(m, rt) {
      var i :| 0 <= i <= |rt| && m <= rt[i..];
      VariableMatches(rt, i, n);
      assert [rt][0] == rt;
      var d :| 0 <= d < |specs| && specs[d].name == n;
      var k :| 0 <= k < |params| && params[k].name == specs[d].name;
      ValueAt(params, oldEscape, k);
    }
    NothingLeft(rt, values, m);
  }

  /** If admission accepted the template and every declared name has a value, no parameter
      variable is left in the resource, whatever the order of the parameters. */
  lemma NothingUnresolved(specs: seq<ParamSpec>, params: seq<Param>, order: seq<Param>, rt: string, oldEscape: bool)
    requires Declared(specs, [rt]) && PlainNames(params) && DistinctNames(params)
    requires Covered(specs, params)
    requires Independent(params, oldEscape) && SafeText(rt, Values(params, oldEscape).Keys)
    requires FreshVariables(params, rt, oldEscape) && Reorders(order, params)
    ensures forall n :: GrammarName(n) ==> !Occurs(ParamToken(n), ApplyParams(order, rt, oldEscape))
  {
    OrderIsHarmless(order, params, rt, oldEscape);
    forall n | GrammarName(n) ensures !Occurs(ParamToken(n), ApplyParams(order, rt, oldEscape)) {
      VariableGone(specs, params, rt, oldEscape, n);
    }
  }

  // ---- The pattern, spelt out --------------------------------------------------------

  /** The characters of a name by their ASCII codes: letters and the underscore to begin with, then
      also digits, the hyphen and the dot. */
  lemma NameAlphabet(c: char)
    ensures NameStart(c) <==> c as int == 95 || 65 <= c as int <= 90 || 97 <= c as int <= 122
    ensures NameChar(c) <==> NameStart(c) || 48 <= c as int <= 57 || c as int == 45 || c as int == 46
  {
  }

  /** The pattern matches at a place, with a name, exactly where a text of its form stands: two open
      places that are no line ends, and a name of the grammar. */
  lemma MatchExact(raw: string, i: nat, n: string)
    requires i <= |raw|
    ensures MatchAt(raw, i) == Some(n) <==>
      GrammarName(n) && exists x, y :: x != '\n' && y != '\n' && Lookalike(x, y, n) <= raw[i..]
  {
    if MatchAt(raw, i) == Some(n) {
      MatchSpelt(raw, i, n);
      assert raw[i + 4] != '\n' && raw[i + 11] != '\n';
    }
    if GrammarName(n) && exists x, y :: x != '\n' && y != '\n' && Lookalike(x, y, n) <= raw[i..] {
      var x, y :| x != '\n' && y != '\n' && Lookalike(x, y, n) <= raw[i..];
      SpeltMatches(raw, i, n, x, y);
    }
  }

  lemma MatchSpelt(raw: string, i: nat, n: string)
    requires i <= |raw| && MatchAt(raw, i) == Some(n)
    ensures GrammarName(n) && i + 12 < |raw| && Lookalike(raw[i + 4], raw[i + 11], n) <= raw[i..]
  {
    var e := NameEnd(raw, i + 12);
    assert n == raw[i + 12..e] && n[0] == raw[i + 12];
    forall k | 0 <= k < |n| ensures NameChar(n[k]) { assert n[k] == raw[i + 12 + k]; }
    var x, y := raw[i + 4], raw[i + 11];
    var t, r := Lookalike(x, y, n), raw[i..];
    LookalikeAt(x, y, n, 0);
    hide Lookalike, NameEnd, MatchAt, NameChar, GrammarName;
    forall k | 0 <= k < |t| ensures t[k] == r[k] {
      LookalikeAt(x, y, n, k);
      assert r[k] == raw[i + k];
      FixedPart(raw, i, i + 4, "$(tt", i + k);
      FixedPart(raw, i + 5, i + 11, "params", i + k);
      FixedPart(raw, i + 12, e, n, i + k);
    }
  }

  lemma LookalikeAt(x: char, y: char, n: string, k: nat)
    requires k < 13 + |n|
    ensures |Lookalike(x, y, n)| == 13 + |n|
    ensures Lookalike(x, y, n)[k] ==
      if k < 4 then "$(tt"[k] else if k == 4 then x else if k < 11 then "params"[k - 5]
      else if k == 11 then y else if k < 12 + |n| then n[k - 12] else ')'
  {
  }

  lemma SpeltMatches(raw: string, i: nat, n: string, x: char, y: char)
    requires i <= |raw| && GrammarName(n) && x != '\n' && y != '\n' && Lookalike(x, y, n) <= raw[i..]
    ensures MatchAt(raw, i) == Some(n)
  {
    var t := Lookalike(x, y, n);
    assert |t| == 13 + |n| && raw[i..i + |t|] == t by { assert raw[i..][..|t|] == raw[i..i + |t|]; }
    assert t[0..4] == "$(tt" && t[5..11] == "params" && t[12..12 + |n|] == n;
    assert t[4] == x && t[11] == y && t[12 + |n|] == ')';
    SamePart(raw, i, t, 0, 4);
    SamePart(raw, i, t, 4, 5);
    SamePart(raw, i, t, 5, 11);
    SamePart(raw, i, t, 11, 12);
    SamePart(raw, i, t, 12, 12 + |n|);
    SamePart(raw, i, t, 12 + |n|, 13 + |n|);
    assert raw[i + 4] == raw[i + 4..i + 5][0] && raw[i + 11] == raw[i + 11..i + 12][0];
    assert raw[i + 12 + |n|] == raw[i + 12 + |n|..i + 13 + |n|][0];
    hide Lookalike;
    MatchFrom(raw, i, n);
  }
}
