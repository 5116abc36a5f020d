/** The event stage replaces expressions in the order of the text.  For two expressions: exactly
    which value of the first one leaves the second one alone. */
module EventOrder {
  import opened Text
  import opened Wrappers
  import opened Substitution
  import opened Scanner
  import opened Bindings

  /** Two expressions with plain text between them. */
  function Pair(a: string, mid: string, b: string): string {
    Wrap(a) + mid + Wrap(b)
  }

  lemma PairOpens(a: string, mid: string, b: string, i: nat)
    requires IsBody(a) && IsBody(b) && NoOpens(mid)
    ensures OpensAt(Pair(a, mid, b), i) <==> i == 0 || i == |Wrap(a) + mid|
  {
    WrapIsToken(a);
    WrapIsToken(b);
    var s, x, n := Pair(a, mid, b), |Wrap(a)|, |Wrap(a) + mid|;
    if 0 < i < x {
      assert !OpensAt(Wrap(a), i);
    } else if x <= i < n {
      assert !OpensAt(mid, i - x);
    } else if n < i < |s| {
      assert !OpensAt(Wrap(b), i - n);
    }
  }

  /** The scanner finds both. */
  lemma {:induction false} PairOriginals(a: string, mid: string, b: string)
    requires IsBody(a) && IsBody(b) && NoOpens(mid)
    ensures OriginalsFrom(Pair(a, mid, b), 0) == [Wrap(a), Wrap(b)]
  {
    var s, n := Pair(a, mid, b), |Wrap(a) + mid|;
    forall i | 0 <= i < |s| && i != 0 && i != n ensures !OpensAt(s, i) { PairOpens(a, mid, b, i); }
    assert s[0..] == s && s[n..] == Wrap(b);
    OneOriginal(s, 0, a);
    SkipClosed(s, 1, n);
    OneOriginal(s, n, b);
    SkipClosed(s, n + 1, |s|);
    NoneFromEnd(s);
  }

  lemma {:induction false} OneOriginal(s: string, p: nat, b: string)
    requires p < |s| && IsBody(b) && Wrap(b) <= s[p..]
    ensures OriginalsFrom(s, p) == [Wrap(b)] + OriginalsFrom(s, p + 1)
  {
    ExprOccurs(s, p, b);
    var q := p + 2 + |b|;
    forall q' | IsExprAt(s, p, q') ensures q' == q { ExprUnique(s, p, q, q'); }
    assert s[p..q + 1] == s[p..][..|Wrap(b)|] == Wrap(b);
  }

  /** No match reaches across the beginning of a token, so both sides are replaced on their own. */
  lemma {:induction false} SplitAtOpen(s: string, u: string, m: string, v: string)
    requires IsToken(m) && OpensAt(u, 0)
    ensures ReplaceAll(s + u, m, v) == ReplaceAll(s, m, v) + ReplaceAll(u, m, v)
    decreases |s|
  {
    hide ReplaceAll;
    var w := ReplaceAll(u, m, v);
    if s == "" {
      NothingToReplace(m, v);
      assert s + u == u && "" + w == w;
    } else if m <= s {
      var r := s[|m|..];
      assert s == m + r;
      SplitAtOpen(r, u, m, v);
      Associates(m, r, u);
      FrontStep(m, r, v);
      FrontStep(m, r + u, v);
      Associates(v, ReplaceAll(r, m, v), w);
    } else {
      var c, r := s[0], s[1..];
      assert s == [c] + r;
      NoOverlap(s, u, m);
      SplitAtOpen(r, u, m, v);
      Associates([c], r, u);
      CharStep(c, r, m, v);
      CharStep(c, r + u, m, v);
      Associates([c], ReplaceAll(r, m, v), w);
    }
  }

  lemma NoOverlap(s: string, u: string, m: string)
    requires IsToken(m) && OpensAt(u, 0) && s != "" && !(m <= s)
    ensures !(m <= s + u)
  {
    var k, t := |s|, s + u;
    assert t[k] == '$' && t[k + 1] == '(' && s <= t;
    if |m| <= k {
      if m <= t { PrefixesCompare(m, s, t); }
    } else {
      assert !OpensAt(m, k);
    }
  }

  /** A token at the very end is replaced on its own. */
  lemma {:induction false} ReplaceAtEnd(s: string, m: string, v: string)
    requires IsToken(m)
    ensures ReplaceAll(s + m, m, v) == ReplaceAll(s, m, v) + v
  {
    SplitAtOpen(s, m, m, v);
    hide ReplaceAll;
    FrontStep(m, "", v);
    NothingToReplace(m, v);
    assert m + "" == m && v + "" == v;
  }

  /** Both expressions replaced, in the order of the text. */
  lemma BothExpressions(a: string, mid: string, b: string, va: string, vb: string)
    requires IsBody(a) && IsBody(b) && a != b && NoOpens(mid)
    ensures ApplySeq(Pair(a, mid, b), [Rewrite(Wrap(a), va), Rewrite(Wrap(b), vb)]) ==
      ReplaceAll(va + mid, Wrap(b), vb) + vb
  {
    var steps := [Rewrite(Wrap(a), va), Rewrite(Wrap(b), vb)];
    var first := va + mid + Wrap(b);
    FirstOfTwo(a, mid, b, va);
    WrapIsToken(b);
    ReplaceAtEnd(va + mid, Wrap(b), vb);
    hide ReplaceAll, Pair;
    assert steps[1..] == [Rewrite(Wrap(b), vb)] && steps[1..][1..] == [];
    ApplyNone(ReplaceAll(first, Wrap(b), vb));
    assert ApplySeq(first, steps[1..]) == ReplaceAll(first, Wrap(b), vb);
  }

  lemma PairResolves(a: string, mid: string, b: string, eval: Evaluator, fallback: Option<string>, va: string,
                     vb: string)
    requires IsBody(a) && IsBody(b) && a != b && NoOpens(mid)
    requires Contribution(Wrap(a), eval, fallback) == Some(va) && Contribution(Wrap(b), eval, fallback) == Some(vb)
    ensures ResolveValue(Pair(a, mid, b), eval, fallback) == Some(ReplaceAll(va + mid, Wrap(b), vb) + vb)
  {
    hide Pair, OriginalsFrom, ApplySeq, ReplaceAll, Contribution, IsBody, StepsFor;
    PairOriginals(a, mid, b);
    TwoSteps(Wrap(a), Wrap(b), eval, fallback, va, vb);
    BothExpressions(a, mid, b, va, vb);
  }

  lemma TwoSteps(x: string, y: string, eval: Evaluator, fallback: Option<string>, va: string, vb: string)
    requires |x| >= 3 && |y| >= 3
    requires Contribution(x, eval, fallback) == Some(va) && Contribution(y, eval, fallback) == Some(vb)
    ensures StepsFor([x, y], eval, fallback) == Some([Rewrite(x, va), Rewrite(y, vb)])
  {
    hide Contribution;
    var os := [x, y];
    assert os[0] == x && os[1] == y;
    assert StepsFor(os, eval, fallback).Some?;
    assert StepsFor(os, eval, fallback).value == [Rewrite(x, va), Rewrite(y, vb)];
  }

  /** The value of the first expression comes through whatever plain text follows it exactly when
      it holds no second expression and does not end in the beginning of one (or the second step
      changes nothing).  Nothing else is asked of the second value: its step is the last. */
  lemma TwoExpressionsExact(a: string, b: string, eval: Evaluator, fallback: Option<string>, va: string, vb: string)
    requires IsBody(a) && IsBody(b) && a != b
    requires Contribution(Wrap(a), eval, fallback) == Some(va) && Contribution(Wrap(b), eval, fallback) == Some(vb)
    ensures SafeValue(va, Wrap(b)) || vb == Wrap(b) <==>
      forall mid :: NoOpens(mid) ==> ResolveValue(Pair(a, mid, b), eval, fallback) == Some(va + mid + vb)
  {
    hide ResolveValue, Contribution, Pair, ReplaceAll;
    WrapIsToken(a);
    WrapIsToken(b);
    if SafeValue(va, Wrap(b)) || vb == Wrap(b) {
      forall mid | NoOpens(mid) ensures ResolveValue(Pair(a, mid, b), eval, fallback) == Some(va + mid + vb) {
        PairResolves(a, mid, b, eval, fallback, va, vb);
        if vb == Wrap(b) {
          ReplaceBySame(va + mid, vb);
        } else {
          SafeThenPlainAbsent(va, mid, Wrap(b));
          ReplaceAbsent(va + mid, Wrap(b), vb);
        }
      }
    } else {
      var mid := FedText(Rewrite(Wrap(a), va), Wrap(b));
      PairResolves(a, mid, b, eval, fallback, va, vb);
      ReplaceChanges(va + mid, Wrap(b), vb);
      SameEnd(ReplaceAll(va + mid, Wrap(b), vb), va + mid, vb);
    }
  }

  lemma SameEnd(x: string, y: string, v: string)
    requires x != y
    ensures x + v != y + v
  {
    if |x| == |y| { assert (x + v)[..|x|] == x && (y + v)[..|x|] == y; }
  }

  lemma FirstOfTwo(a: string, mid: string, b: string, va: string)
    requires IsBody(a) && IsBody(b) && a != b && NoOpens(mid)
    ensures ReplaceAll(Pair(a, mid, b), Wrap(a), va) == va + mid + Wrap(b)
  {
    FirstReplaced(a, va, [b], mid);
    hide ReplaceAll, IsBody, NoOpens;
    RowOfOne(b);
  }

  // ---- Any number of expressions -----------------------------------------------------

  /** Expressions side by side. */
  function Row(bs: seq<string>): string {
    if bs == [] then "" else Wrap(bs[0]) + Row(bs[1..])
  }

  lemma RowOfOne(b: string)
    ensures Row([b]) == Wrap(b)
  {
    assert [b][1..] == [] && Row([]) == "" && Wrap(b) + "" == Wrap(b);
  }

  lemma RowOfTwo(b: string, c: string)
    ensures Row([b, c]) == Wrap(b) + Wrap(c)
  {
    RowOfOne(c);
    assert [b, c][1..] == [c];
  }

  function Wraps(bs: seq<string>): (ws: seq<string>)
    ensures |ws| == |bs| && forall k :: 0 <= k < |bs| ==> ws[k] == Wrap(bs[k])
  {
    if bs == [] then [] else [Wrap(bs[0])] + Wraps(bs[1..])
  }

  ghost predicate Bodies(bs: seq<string>) {
    && (forall k :: 0 <= k < |bs| ==> IsBody(bs[k]))
    && (forall j, k :: 0 <= j < k < |bs| ==> bs[j] != bs[k])
  }

  lemma BodiesTail(bs: seq<string>)
    requires Bodies(bs) && bs != []
    ensures IsBody(bs[0]) && Bodies(bs[1..]) && bs[0] !in bs[1..]
  {
  }

  lemma RowOpensFront(bs: seq<string>)
    ensures Row(bs) != "" <==> bs != []
    ensures bs != [] ==> OpensAt(Row(bs), 0)
  {
  }

  /** From where a row begins, its expressions are all there are. */
  lemma {:induction false} RowOriginals(s: string, p: nat, bs: seq<string>)
    requires Bodies(bs) && p <= |s| && s[p..] == Row(bs)
    ensures OriginalsFrom(s, p) == Wraps(bs)
    decreases |bs|
  {
    if bs == [] {
      NoneFromEnd(s);
    } else {
      var t := Wrap(bs[0]);
      var n := p + |t|;
      BodiesTail(bs);
      RowFront(s, p, bs);
      OneOriginal(s, p, bs[0]);
      SkipClosed(s, p + 1, n);
      RowOriginals(s, n, bs[1..]);
    }
  }

  lemma RowFront(s: string, p: nat, bs: seq<string>)
    requires bs != [] && IsBody(bs[0]) && p <= |s| && s[p..] == Row(bs)
    ensures var n := p + |Wrap(bs[0])|;
      && n <= |s| && Wrap(bs[0]) <= s[p..] && s[n..] == Row(bs[1..])
      && s[n - 1] == ')' && forall i :: p < i < n ==> !OpensAt(s, i)
  {
    var t := Wrap(bs[0]);
    var n := p + |t|;
    WrapIsToken(bs[0]);
    assert s[p..] == t + Row(bs[1..]);
    assert s[p..][|t|..] == s[n..] && (t + Row(bs[1..]))[|t|..] == Row(bs[1..]);
    forall i | p <= i < n ensures s[i] == t[i - p] { assert s[p..][i - p] == s[i]; }
    forall i | p < i < n ensures !OpensAt(s, i) {
      assert !OpensAt(t, i - p);
    }
  }

  /** Every `$(` of a row starts an expression, and no `$` stands before it. */
  lemma {:induction false} RowOpens(s: string, p: nat, bs: seq<string>, i: nat)
    requires Bodies(bs) && p <= |s| && s[p..] == Row(bs) && p <= i && OpensAt(s, i)
    ensures exists q :: IsExprAt(s, i, q)
    ensures i > p ==> s[i - 1] != '$'
    decreases |bs|
  {
    if bs != [] {
      var n := p + |Wrap(bs[0])|;
      BodiesTail(bs);
      RowFront(s, p, bs);
      if i == p {
        ExprOccurs(s, p, bs[0]);
      } else {
        RowOpens(s, n, bs[1..], i);
      }
    }
  }

  /** An expression, plain text that does not end in `$`, and a row. */
  lemma {:induction false} RowText(a: string, mid: string, bs: seq<string>)
    requires Bodies([a] + bs) && CleanValue(mid)
    ensures var s := Wrap(a) + mid + Row(bs);
      OriginalsFrom(s, 0) == [Wrap(a)] + Wraps(bs) && Validated(s) && NoDollarBeforeExpr(s)
  {
    var s, n := Wrap(a) + mid + Row(bs), |Wrap(a) + mid|;
    BodiesTail([a] + bs);
    assert ([a] + bs)[1..] == bs;
    BeforeRow(a, mid, bs);
    RowStands(Wrap(a), mid, Row(bs));
    hide *;
    BehindOriginals(s, n, a, bs);
    BehindOpens(s, n, a, bs);
    OpensTell(s);
  }

  lemma RowStands(t: string, mid: string, r: string)
    ensures var s, n := t + mid + r, |t + mid|; |t| <= n <= |s| && t <= s && s[n..] == r
  {
  }

  /** An expression in front, nothing more before `n`, and a row from there on. */
  lemma {:induction false} BehindOriginals(s: string, n: nat, a: string, bs: seq<string>)
    requires IsBody(a) && Bodies(bs) && |Wrap(a)| <= n <= |s| && Wrap(a) <= s && s[n..] == Row(bs)
    requires forall i :: 0 < i < n ==> !OpensAt(s, i)
    ensures OriginalsFrom(s, 0) == [Wrap(a)] + Wraps(bs)
  {
    assert s[0..] == s && |s| > 0;
    hide OriginalsFrom, IsBody, Bodies, Row, Wraps;
    OneOriginal(s, 0, a);
    SkipClosed(s, 1, n);
    RowOriginals(s, n, bs);
  }

  lemma {:induction false} BehindOpens(s: string, n: nat, a: string, bs: seq<string>)
    requires IsBody(a) && Bodies(bs) && |Wrap(a)| <= n <= |s| && Wrap(a) <= s && s[n..] == Row(bs)
    requires s[n - 1] != '$' && forall i :: 0 < i < n ==> !OpensAt(s, i)
    ensures forall i: nat :: OpensAt(s, i) ==> (exists q :: IsExprAt(s, i, q)) && (i > 0 ==> s[i - 1] != '$')
  {
    assert s[0..] == s;
    ExprOccurs(s, 0, a);
    hide IsExprAt, IsBody, Bodies, Row;
    forall i: nat | OpensAt(s, i) ensures (exists q :: IsExprAt(s, i, q)) && (i > 0 ==> s[i - 1] != '$') {
      if i >= n { RowOpens(s, n, bs, i); }
    }
  }

  lemma OpensTell(s: string)
    requires forall i: nat :: OpensAt(s, i) ==> (exists q :: IsExprAt(s, i, q)) && (i > 0 ==> s[i - 1] != '$')
    ensures Validated(s) && NoDollarBeforeExpr(s)
  {
    hide IsBody;
    forall p, q | p > 0 && IsExprAt(s, p, q) ensures s[p - 1] != '$' { assert OpensAt(s, p); }
  }

  lemma BeforeRow(a: string, mid: string, bs: seq<string>)
    requires IsBody(a) && CleanValue(mid)
    ensures var s, n := Wrap(a) + mid + Row(bs), |Wrap(a) + mid|;
      s[n - 1] != '$' && forall i :: 0 < i < n ==> !OpensAt(s, i)
  {
    var s, x, n := Wrap(a) + mid + Row(bs), |Wrap(a)|, |Wrap(a) + mid|;
    WrapIsToken(a);
    assert mid == "" ==> s[n - 1] == Wrap(a)[x - 1];
    assert mid != "" ==> s[n - 1] == mid[|mid| - 1];
    forall i | 0 < i < n ensures !OpensAt(s, i) {
      if i < x {
        assert !OpensAt(Wrap(a), i);
      } else {
        assert !OpensAt(mid, i - x);
      }
    }
  }

  // ---- Which value of an earlier expression is harmless ------------------------------

  /** The steps of a value for `a` and then values for the others. */
  function StepsWith(a: string, va: string, bs: seq<string>, vs: seq<string>): (steps: seq<Rewrite>)
    requires |vs| == |bs|
    ensures |steps| == 1 + |bs| && forall k :: 0 <= k < |steps| ==> steps[k].token != ""
  {
    [Rewrite(Wrap(a), va)] + Later(bs, vs)
  }

  function Later(bs: seq<string>, vs: seq<string>): (steps: seq<Rewrite>)
    requires |vs| == |bs|
    ensures |steps| == |bs| && forall k :: 0 <= k < |bs| ==> steps[k] == Rewrite(Wrap(bs[k]), vs[k])
  {
    seq(|bs|, k requires 0 <= k < |bs| => Rewrite(Wrap(bs[k]), vs[k]))
  }

  /** A text with exactly these expressions, in this order, and clean values for the later ones. */
  ghost predicate Suits(text: string, a: string, bs: seq<string>, vs: seq<string>) {
    && OriginalsFrom(text, 0) == [Wrap(a)] + Wraps(bs)
    && |vs| == |bs| && (forall k :: 0 <= k < |vs| ==> CleanValue(vs[k]))
    && SafeText(text, FirstWins(StepsWith(a, "", bs, vs)).Keys)
  }

  /** The loop over the text gives the simultaneous substitution. */
  ghost predicate Right(text: string, a: string, va: string, bs: seq<string>, vs: seq<string>) {
    |vs| == |bs| &&
    ApplySeq(text, StepsWith(a, va, bs, vs)) == Simultaneous(text, FirstWins(StepsWith(a, va, bs, vs)))
  }

  lemma StepsFit(a: string, va: string, bs: seq<string>, vs: seq<string>)
    requires Bodies([a] + bs) && |vs| == |bs|
    ensures ValidSteps(StepsWith(a, va, bs, vs))
    ensures forall k :: 0 <= k < |bs| ==> IsToken(Wrap(bs[k]))
    ensures forall t :: t in FirstWins(StepsWith(a, va, bs, vs)) ==> IsExpression(t)
    ensures FirstWins(StepsWith(a, va, bs, vs)).Keys == FirstWins(StepsWith(a, "", bs, vs)).Keys
  {
    var all, steps, blank := [a] + bs, StepsWith(a, va, bs, vs), StepsWith(a, "", bs, vs);
    hide IsBody, Wrap, FirstWins, IsToken, Compatible;
    forall k | 0 <= k < |steps| ensures steps[k].token == blank[k].token == Wrap(all[k]) { }
    forall k | 0 <= k < |steps| ensures IsToken(steps[k].token) && IsExpression(steps[k].token) { WrapIsToken(all[k]); }
    forall k | 0 <= k < |bs| ensures IsToken(Wrap(bs[k])) { assert all[k + 1] == bs[k]; WrapIsToken(all[k + 1]); }
    forall j, k | 0 <= j < |steps| && 0 <= k < |steps| ensures Compatible(steps[j].token, steps[k].token) {
      BodiesCompatible(all[j], all[k]);
    }
  }

  lemma BodiesCompatible(b: string, c: string)
    requires IsBody(b) && IsBody(c)
    ensures Compatible(Wrap(b), Wrap(c))
  {
    if Comparable(Wrap(b), Wrap(c)) { BodiesPrefixFree(b, c); }
  }

  lemma SafeIsRight(text: string, a: string, va: string, bs: seq<string>, vs: seq<string>)
    requires Bodies([a] + bs) && Suits(text, a, bs, vs) && forall k :: 0 <= k < |bs| ==> SafeValue(va, Wrap(bs[k]))
    ensures Right(text, a, va, bs, vs)
  {
    StepsFit(a, va, bs, vs);
    SafeSteps(a, va, bs, vs);
    hide SafeValue, IsToken, CleanValue, SafeText, FirstWins, StepsWith, ValidSteps, SafeOrder, Bodies, IsExpression,
         ApplySeq, Simultaneous, OriginalsFrom;
    SequentialIsSimultaneous(text, StepsWith(a, va, bs, vs));
  }

  lemma SafeSteps(a: string, va: string, bs: seq<string>, vs: seq<string>)
    requires |vs| == |bs| && forall k :: 0 <= k < |bs| ==> SafeValue(va, Wrap(bs[k])) && IsToken(Wrap(bs[k]))
    requires forall k :: 0 <= k < |vs| ==> CleanValue(vs[k])
    ensures SafeOrder(StepsWith(a, va, bs, vs))
  {
    var steps := StepsWith(a, va, bs, vs);
    hide SafeValue, IsToken, CleanValue, Wrap;
    forall j, k | 0 <= j < k < |steps| ensures SafeValue(steps[j].value, steps[k].token) {
      assert steps[k].token == Wrap(bs[k - 1]);
      if j > 0 { CleanGivesSafe(vs[j - 1], Wrap(bs[k - 1])); }
    }
  }

  function Blanks(n: nat): (vs: seq<string>)
    ensures |vs| == n && forall k :: 0 <= k < n ==> vs[k] == ""
  {
    seq(n, k => "")
  }

  lemma {:induction false} RowWithout(bs: seq<string>, c: string, v: string)
    requires Bodies(bs) && IsBody(c) && c !in bs
    ensures ReplaceAll(Row(bs), Wrap(c), v) == Row(bs)
    decreases |bs|
  {
    if bs != [] {
      BodiesTail(bs);
      RowWithout(bs[1..], c, v);
      WrapIsToken(c);
      WrapIsToken(bs[0]);
      if Comparable(Wrap(bs[0]), Wrap(c)) { BodiesPrefixFree(bs[0], c); }
      PassToken(Wrap(bs[0]), Row(bs[1..]), Wrap(c), v);
    }
  }

  /** Deleting the expressions of a row behind a text leaves what deleting them in the text leaves. */
  lemma {:induction false} RowDeleted(p: string, bs: seq<string>)
    requires Bodies(bs)
    ensures ApplySeq(p + Row(bs), Later(bs, Blanks(|bs|))) == ApplySeq(p, Later(bs, Blanks(|bs|)))
    decreases |bs|
  {
    if bs == [] {
      assert p + "" == p;
    } else {
      var rest := bs[1..];
      var p' := ReplaceAll(p, Wrap(bs[0]), "");
      BodiesTail(bs);
      FirstDeleted(p, bs);
      LaterBlanks(bs);
      RowDeleted(p', rest);
      hide ReplaceAll, Later;
    }
  }

  lemma LaterBlanks(bs: seq<string>)
    requires bs != []
    ensures var steps := Later(bs, Blanks(|bs|));
      steps[0] == Rewrite(Wrap(bs[0]), "") && steps[1..] == Later(bs[1..], Blanks(|bs| - 1))
  {
  }

  lemma {:induction false} FirstDeleted(p: string, bs: seq<string>)
    requires Bodies(bs) && bs != []
    ensures ReplaceAll(p + Row(bs), Wrap(bs[0]), "") == ReplaceAll(p, Wrap(bs[0]), "") + Row(bs[1..])
  {
    var t := Wrap(bs[0]);
    BodiesTail(bs);
    WrapIsToken(bs[0]);
    RowOpensFront(bs);
    SplitAtOpen(p, Row(bs), t, "");
    RowWithout(bs[1..], bs[0], "");
    FrontStep(t, Row(bs[1..]), "");
    hide ReplaceAll;
    assert "" + Row(bs[1..]) == Row(bs[1..]);
  }

  /** Deletions never lengthen a text, and shorten it if one of the expressions is there. */
  lemma {:induction false} DeletionShortens(p: string, bs: seq<string>)
    ensures |ApplySeq(p, Later(bs, Blanks(|bs|)))| <= |p|
    ensures (exists k :: 0 <= k < |bs| && Occurs(Wrap(bs[k]), p)) ==> |ApplySeq(p, Later(bs, Blanks(|bs|)))| < |p|
    decreases |bs|
  {
    hide Occurs, ReplaceAll, Later, Wrap;
    if bs != [] {
      var t := Wrap(bs[0]);
      WrapNotEmpty(bs[0]);
      LaterBlanks(bs);
      ReplaceResizes(p, t, "");
      DeletionShortens(ReplaceAll(p, t, ""), bs[1..]);
      if !Occurs(t, p) {
        ReplaceAbsent(p, t, "");
        if exists k :: 0 <= k < |bs| && Occurs(Wrap(bs[k]), p) {
          var k :| 0 <= k < |bs| && Occurs(Wrap(bs[k]), p);
          assert bs[1..][k - 1] == bs[k];
        }
      }
    }
  }

  lemma {:induction false} RowMeansNothing(bs: seq<string>, values: map<string, string>)
    requires "" !in values && forall t, m :: t in values && m in values ==> Compatible(t, m)
    requires forall k :: 0 <= k < |bs| ==> Wrap(bs[k]) in values && values[Wrap(bs[k])] == ""
    ensures Simultaneous(Row(bs), values) == ""
    decreases |bs|
  {
    if bs != [] {
      assert forall k :: 0 <= k < |bs| - 1 ==> bs[1..][k] == bs[k + 1];
      RowMeansNothing(bs[1..], values);
      SimultaneousToken(Wrap(bs[0]), Row(bs[1..]), values);
    }
  }

  /** With a value that is not safe for a later expression some text comes out wrong. */
  lemma UnsafeIsWrong(a: string, va: string, bs: seq<string>, k: nat) returns (text: string, vs: seq<string>)
    requires Bodies([a] + bs) && k < |bs| && !SafeValue(va, Wrap(bs[k]))
    ensures Suits(text, a, bs, vs) && !Right(text, a, va, bs, vs)
  {
    vs := Blanks(|bs|);
    StepsFit(a, va, bs, vs);
    StepsFit(a, "", bs, vs);
    BodiesTail([a] + bs);
    assert ([a] + bs)[1..] == bs;
    WrapIsToken(a);
    var mid := FedText(Rewrite(Wrap(a), va), Wrap(bs[k]));
    text := Wrap(a) + mid + Row(bs);
    RowText(a, mid, bs);
    ValidatedIsSafe(text, FirstWins(StepsWith(a, "", bs, vs)).Keys);
    WrongLength(a, va, bs, mid, k);
  }

  lemma {:induction false} WrongLength(a: string, va: string, bs: seq<string>, mid: string, k: nat)
    requires Bodies([a] + bs) && k < |bs| && NoOpens(mid) && Occurs(Wrap(bs[k]), va + mid)
    ensures !Right(Wrap(a) + mid + Row(bs), a, va, bs, Blanks(|bs|))
  {
    var vs, text := Blanks(|bs|), Wrap(a) + mid + Row(bs);
    var steps := StepsWith(a, va, bs, vs);
    FirstReplaced(a, va, bs, mid);
    assert steps[0] == Rewrite(Wrap(a), va) && steps[1..] == Later(bs, vs);
    assert ApplySeq(text, steps) == ApplySeq(va + mid + Row(bs), Later(bs, vs));
    BodiesTail([a] + bs);
    assert ([a] + bs)[1..] == bs;
    RowDeleted(va + mid, bs);
    DeletionShortens(va + mid, bs);
    RowMeans(a, va, bs, mid);
  }

  lemma {:induction false} FirstReplaced(a: string, va: string, bs: seq<string>, mid: string)
    requires Bodies([a] + bs) && NoOpens(mid)
    ensures ReplaceAll(Wrap(a) + mid + Row(bs), Wrap(a), va) == va + mid + Row(bs)
  {
    var t, r := Wrap(a), Row(bs);
    BodiesTail([a] + bs);
    assert ([a] + bs)[1..] == bs;
    WrapIsToken(a);
    RowWithout(bs, a, va);
    NoOpenNoToken(mid, t);
    ReplaceAbsent(mid, t, va);
    RowOpensFront(bs);
    if bs != [] { SplitAtOpen(mid, r, t, va); } else { assert mid + r == mid; }
    FrontStep(t, mid + r, va);
    hide ReplaceAll, Row, Wrap;
    Associates(t, mid, r);
    Associates(va, mid, r);
  }

  lemma {:induction false} RowMeans(a: string, va: string, bs: seq<string>, mid: string)
    requires Bodies([a] + bs) && NoOpens(mid)
    ensures Simultaneous(Wrap(a) + mid + Row(bs), FirstWins(StepsWith(a, va, bs, Blanks(|bs|)))) == va + mid
  {
    var vs := Blanks(|bs|);
    var steps := StepsWith(a, va, bs, vs);
    var values := FirstWins(steps);
    StepsFit(a, va, bs, vs);
    StepValues(a, va, bs, vs);
    RowOpensFront(bs);
    Associates(Wrap(a), mid, Row(bs));
    SimultaneousToken(Wrap(a), mid + Row(bs), values);
    SimultaneousPlain(mid, Row(bs), values);
    RowMeansNothing(bs, values);
    assert mid + "" == mid;
  }

  lemma StepValues(a: string, va: string, bs: seq<string>, vs: seq<string>)
    requires Bodies([a] + bs) && |vs| == |bs|
    ensures var values := FirstWins(StepsWith(a, va, bs, vs));
      && Wrap(a) in values && values[Wrap(a)] == va
      && (forall k :: 0 <= k < |bs| ==> Wrap(bs[k]) in values && values[Wrap(bs[k])] == vs[k])
      && (forall t, m :: t in values && m in values ==> IsToken(t) && Compatible(t, m))
  {
    var steps := StepsWith(a, va, bs, vs);
    StepsFit(a, va, bs, vs);
    FirstWinsFit(steps);
    hide FirstWins, IsToken, Compatible, IsExpression, Bodies, Wrap, ValidSteps, StepsWith;
    StepTokens(a, va, bs, vs);
    forall k | 0 <= k <= |bs|
      ensures steps[k].token in FirstWins(steps) && FirstWins(steps)[steps[k].token] == steps[k].value
    {
      StepValueAt(a, va, bs, vs, k);
    }
    forall k | 0 <= k < |bs| ensures Wrap(bs[k]) in FirstWins(steps) && FirstWins(steps)[Wrap(bs[k])] == vs[k] {
      assert steps[k + 1].token == Wrap(bs[k]);
    }
  }

  lemma StepTokens(a: string, va: string, bs: seq<string>, vs: seq<string>)
    requires |vs| == |bs|
    ensures var steps := StepsWith(a, va, bs, vs);
      && steps[0] == Rewrite(Wrap(a), va)
      && forall k :: 0 < k < |steps| ==> steps[k] == Rewrite(Wrap(bs[k - 1]), vs[k - 1])
  {
    hide Wrap;
    var later := Later(bs, vs);
    assert forall k :: 0 < k <= |bs| ==> ([Rewrite(Wrap(a), va)] + later)[k] == later[k - 1];
  }

  lemma FirstWinsFit(steps: seq<Rewrite>)
    requires ValidSteps(steps)
    ensures forall t, m :: t in FirstWins(steps) && m in FirstWins(steps) ==> IsToken(t) && Compatible(t, m)
  {
    hide FirstWins, IsToken, Compatible;
    forall t, m | t in FirstWins(steps) && m in FirstWins(steps) ensures IsToken(t) && Compatible(t, m) {
      var j := FirstWinsFrom(steps, t);
      var k := FirstWinsFrom(steps, m);
    }
  }

  lemma StepValueAt(a: string, va: string, bs: seq<string>, vs: seq<string>, k: nat)
    requires Bodies([a] + bs) && |vs| == |bs| && k <= |bs|
    ensures var steps := StepsWith(a, va, bs, vs);
      steps[k].token in FirstWins(steps) && FirstWins(steps)[steps[k].token] == steps[k].value
  {
    var all, steps := [a] + bs, StepsWith(a, va, bs, vs);
    hide FirstWins, IsBody;
    forall j | 0 <= j < k ensures steps[j].token != steps[k].token {
      assert steps[j].token == Wrap(all[j]) && steps[k].token == Wrap(all[k]);
      if Wrap(all[j]) == Wrap(all[k]) { WrapInjective(all[j], all[k]); }
    }
    FirstWinsAt(steps, k);
  }

  lemma WrapNotEmpty(b: string)
    ensures Wrap(b) != ""
  {
  }

  lemma WrapInjective(b: string, c: string)
    requires Wrap(b) == Wrap(c)
    ensures b == c
  {
    assert b == Wrap(b)[2..|Wrap(b)| - 1] && c == Wrap(c)[2..|Wrap(c)| - 1];
  }

  /** For any number of expressions: a value leaves every text right, whatever clean values the later
      expressions have, exactly when it is safe for each of them. */
  lemma EarlierValueExact(a: string, va: string, bs: seq<string>)
    requires Bodies([a] + bs)
    ensures (forall k :: 0 <= k < |bs| ==> SafeValue(va, Wrap(bs[k]))) <==>
      forall text, vs :: Suits(text, a, bs, vs) ==> Right(text, a, va, bs, vs)
  {
    hide Suits, Right, SafeValue, Bodies;
    if forall k :: 0 <= k < |bs| ==> SafeValue(va, Wrap(bs[k])) {
      forall text, vs | Suits(text, a, bs, vs) ensures Right(text, a, va, bs, vs) { SafeIsRight(text, a, va, bs, vs); }
    } else {
      var k :| 0 <= k < |bs| && !SafeValue(va, Wrap(bs[k]));
      var text, vs := UnsafeIsWrong(a, va, bs, k);
    }
  }

  // ---- With fixed later values coincidences happen -----------------------------------

  lemma ThreeSteps(x: string, y: string, z: string, eval: Evaluator, fallback: Option<string>, v: string)
    requires |x| >= 3 && |y| >= 3 && |z| >= 3
    requires Contribution(x, eval, fallback) == Contribution(z, eval, fallback) == Some(v)
    requires Contribution(y, eval, fallback) == Some("")
    ensures StepsFor([x, y, z], eval, fallback) == Some([Rewrite(x, v), Rewrite(y, ""), Rewrite(z, v)])
  {
    hide Contribution;
    var os := [x, y, z];
    assert os[0] == x && os[1] == y && os[2] == z;
    assert StepsFor(os, eval, fallback).Some?;
    assert StepsFor(os, eval, fallback).value == [Rewrite(x, v), Rewrite(y, ""), Rewrite(z, v)];
  }

  /** With three expressions later steps can make good what earlier ones spoilt: the first value holds
      both others here, and the result is right all the same.  So safe order is not necessary. */
  lemma {:induction false} ThreeMayCoincide(a: string, b: string, c: string, eval: Evaluator, fallback: Option<string>)
    requires Bodies([a, b, c])
    requires var v := Wrap(b) + Wrap(c);
      && Contribution(Wrap(a), eval, fallback) == Contribution(Wrap(c), eval, fallback) == Some(v)
      && Contribution(Wrap(b), eval, fallback) == Some("")
    ensures var text := Wrap(a) + Wrap(b) + Wrap(c);
      && ResolveValue(text, eval, fallback).Some? && !SafeOrder(EventSteps(text, eval, fallback))
      && "" !in EventValues(text, eval, fallback)
      && ResolveValue(text, eval, fallback) == Some(Simultaneous(text, EventValues(text, eval, fallback)))
  {
    var x, y, z, v := Wrap(a), Wrap(b), Wrap(c), Wrap(b) + Wrap(c);
    hide OriginalsFrom, StepsFor, Simultaneous, FirstWins, ApplySeq, SafeOrder, StepsWith, Contribution, Bodies;
    ThreeText(a, b, c);
    ThreeSteps(x, y, z, eval, fallback, v);
    FeedsNext(x, y, z);
    ThreeStepsWith(a, b, c, v);
    ThreeResult(a, b, c);
    ThreeMeans(a, b, c);
  }

  lemma ThreeStepsWith(a: string, b: string, c: string, v: string)
    ensures StepsWith(a, v, [b, c], ["", v]) == [Rewrite(Wrap(a), v), Rewrite(Wrap(b), ""), Rewrite(Wrap(c), v)]
  {
    hide Wrap;
    assert Later([b, c], ["", v]) == [Rewrite(Wrap(b), ""), Rewrite(Wrap(c), v)];
  }

  lemma ThreeText(a: string, b: string, c: string)
    requires Bodies([a, b, c])
    ensures OriginalsFrom(Wrap(a) + Wrap(b) + Wrap(c), 0) == [Wrap(a), Wrap(b), Wrap(c)]
  {
    assert [a] + [b, c] == [a, b, c];
    CleanEmpty();
    hide CleanValue, OriginalsFrom, Bodies, Validated, NoDollarBeforeExpr, Row, Wrap;
    RowText(a, "", [b, c]);
    RowOfTwo(b, c);
    assert Wrap(a) + "" == Wrap(a);
    Associates(Wrap(a), Wrap(b), Wrap(c));
    assert Wraps([b, c]) == [Wrap(b), Wrap(c)];
  }

  lemma CleanEmpty()
    ensures CleanValue("")
  {
  }

  lemma ThreeMeans(a: string, b: string, c: string)
    requires Bodies([a, b, c])
    ensures var v := Wrap(b) + Wrap(c);
      Simultaneous(Wrap(a) + Wrap(b) + Wrap(c), FirstWins(StepsWith(a, v, [b, c], ["", v]))) == v + v
  {
    var x, y, z, v := Wrap(a), Wrap(b), Wrap(c), Wrap(b) + Wrap(c);
    assert [a] + [b, c] == [a, b, c];
    StepValues(a, v, [b, c], ["", v]);
    var values := FirstWins(StepsWith(a, v, [b, c], ["", v]));
    assert [b, c][0] == b && [b, c][1] == c && ["", v][0] == "" && ["", v][1] == v;
    assert values[y] == "" && values[z] == v && values[x] == v;
    hide FirstWins, StepsWith, IsToken, Compatible;
    Associates(x, y, z);
    SimultaneousToken(x, y + z, values);
    SimultaneousToken(y, z, values);
    SimultaneousToken(z, "", values);
    hide Simultaneous;
    NothingMeans(values);
    assert z + "" == z && v + "" == v && "" + v == v;
  }

  lemma NothingMeans(values: map<string, string>)
    requires "" !in values
    ensures Simultaneous("", values) == ""
  {
  }

  lemma ThreeResult(a: string, b: string, c: string)
    requires Bodies([a, b, c])
    ensures var x, y, z, v := Wrap(a), Wrap(b), Wrap(c), Wrap(b) + Wrap(c);
      ApplySeq(x + y + z, [Rewrite(x, v), Rewrite(y, ""), Rewrite(z, v)]) == v + v
  {
    var x, y, z, v := Wrap(a), Wrap(b), Wrap(c), Wrap(b) + Wrap(c);
    assert [a, b, c][0] == a && [a, b, c][1] == b && [a, b, c][2] == c;
    ThreeFit(a, b, c);
    hide ReplaceAll, Wrap, ApplySeq, IsToken, Compatible, Bodies, IsBody;
    FirstOfThree(x, y, z);
    SecondOfThree(y, z);
    ThirdOfThree(z, v);
    TokensNotEmpty(x, y, z);
    ApplyThree(x + y + z, Rewrite(x, v), Rewrite(y, ""), Rewrite(z, v));
  }

  lemma TokensNotEmpty(x: string, y: string, z: string)
    requires IsToken(x) && IsToken(y) && IsToken(z)
    ensures x != "" && y != "" && z != ""
  {
  }

  lemma ApplyThree(s: string, s1: Rewrite, s2: Rewrite, s3: Rewrite)
    requires s1.token != "" && s2.token != "" && s3.token != ""
    ensures ApplySeq(s, [s1, s2, s3]) ==
      ReplaceAll(ReplaceAll(ReplaceAll(s, s1.token, s1.value), s2.token, s2.value), s3.token, s3.value)
  {
    hide ReplaceAll, ApplySeq;
    assert [s1, s2, s3] == [s1, s2] + [s3] && [s1, s2] == [s1] + [s2] && [s1] == [] + [s1];
    ApplyNone(s);
    ApplyOneMore(s, [], s1);
    ApplyOneMore(s, [s1], s2);
    ApplyOneMore(s, [s1, s2], s3);
  }

  lemma FeedsNext(x: string, y: string, z: string)
    requires y != ""
    ensures !SafeOrder([Rewrite(x, y + z), Rewrite(y, ""), Rewrite(z, y + z)])
  {
    var v := y + z;
    var steps := [Rewrite(x, v), Rewrite(y, ""), Rewrite(z, v)];
    assert v[0..] == v && y <= v && !SafeValue(v, y);
    assert steps[0].value == v && steps[1].token == y;
  }

  /** The first of three tokens becomes the two others. */
  lemma {:induction false} FirstOfThree(x: string, y: string, z: string)
    requires IsToken(x) && IsToken(y) && IsToken(z)
    requires x != y && x != z && Compatible(y, x) && Compatible(z, x)
    ensures ReplaceAll(x + y + z, x, y + z) == (y + z) + (y + z)
  {
    hide ReplaceAll;
    Associates(x, y, z);
    FrontStep(x, y + z, y + z);
    PassToken(y, z, x, y + z);
    PassToken(z, "", x, y + z);
    NothingToReplace(x, y + z);
    assert z + "" == z;
  }

  lemma {:induction false} SecondOfThree(y: string, z: string)
    requires IsToken(y) && IsToken(z) && y != z && Compatible(z, y)
    ensures ReplaceAll((y + z) + (y + z), y, "") == z + z
  {
    hide ReplaceAll;
    FrontStep(y, z, "");
    FrontStep(y, z + (y + z), "");
    PassToken(z, "", y, "");
    PassToken(z, y + z, y, "");
    NothingToReplace(y, "");
    hide IsToken, Compatible;
    Associates(y, z, y + z);
    assert z + "" == z && "" + z == z && "" + (z + z) == z + z;
  }

  lemma {:induction false} ThirdOfThree(z: string, v: string)
    requires IsToken(z)
    ensures ReplaceAll(z + z, z, v) == v + v
  {
    hide ReplaceAll;
    FrontStep(z, z, v);
    FrontStep(z, "", v);
    NothingToReplace(z, v);
    assert z + "" == z && v + "" == v;
  }

  lemma ThreeFit(a: string, b: string, c: string)
    requires IsBody(a) && IsBody(b) && IsBody(c)
    ensures IsToken(Wrap(a)) && IsToken(Wrap(b)) && IsToken(Wrap(c))
    ensures a != b ==> Compatible(Wrap(b), Wrap(a)) && Compatible(Wrap(a), Wrap(b)) && Wrap(a) != Wrap(b)
    ensures a != c ==> Compatible(Wrap(c), Wrap(a)) && Compatible(Wrap(a), Wrap(c)) && Wrap(a) != Wrap(c)
    ensures b != c ==> Compatible(Wrap(c), Wrap(b)) && Compatible(Wrap(b), Wrap(c)) && Wrap(b) != Wrap(c)
  {
    TwoFit(a, b);
    TwoFit(a, c);
    TwoFit(b, c);
  }

  lemma TwoFit(a: string, b: string)
    requires IsBody(a) && IsBody(b)
    ensures IsToken(Wrap(a)) && IsToken(Wrap(b))
    ensures a != b ==> Compatible(Wrap(b), Wrap(a)) && Compatible(Wrap(a), Wrap(b)) && Wrap(a) != Wrap(b)
  {
    WrapIsToken(a);
    WrapIsToken(b);
    if Comparable(Wrap(a), Wrap(b)) { BodiesPrefixFree(a, b); }
  }

  /** A binding that is one expression has the event's value, or else the fallback. */
  lemma OneExpression(b: string, eval: Evaluator, fallback: Option<string>)
    requires IsBody(b)
    ensures ResolveValue(Wrap(b), eval, fallback) ==
      var v := eval(Wrap(Canonicalise(b))); if v.Some? then v else fallback
  {
    var w := Wrap(b);
    RowOfOne(b);
    assert w[0..] == w && [b][0] == b;
    RowOriginals(w, 0, [b]);
    var os := OriginalsFrom(w, 0);
    assert os == [w];
    assert w[2..|w| - 1] == b;
    var c := Contribution(w, eval, fallback);
    hide Wrap, IsBody, Row, OriginalsFrom, ReplaceAll;
    if c.Some? {
      OneStep(w, eval, fallback);
      assert [Rewrite(w, c.value)] == [] + [Rewrite(w, c.value)];
      ApplyNone(w);
      ApplyOneMore(w, [], Rewrite(w, c.value));
      FrontStep(w, "", c.value);
      NothingToReplace(w, c.value);
      assert w + "" == w && c.value + "" == c.value;
    } else {
      assert os[0] == w;
    }
  }

  lemma OneStep(w: string, eval: Evaluator, fallback: Option<string>)
    requires |w| >= 3 && Contribution(w, eval, fallback).Some?
    ensures StepsFor([w], eval, fallback) == Some([Rewrite(w, Contribution(w, eval, fallback).value)])
  {
    hide Contribution;
    assert [w][0] == w;
    assert StepsFor([w], eval, fallback).Some?;
    assert StepsFor([w], eval, fallback).value == [Rewrite(w, Contribution(w, eval, fallback).value)];
  }
}
