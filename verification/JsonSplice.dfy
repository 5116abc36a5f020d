/** One parameter step on the inside of a JSON string literal. */
module JsonSplice {
  import opened Text
  import opened Wrappers
  import opened Substitution
  import opened Bindings
  import opened Templates
  import opened JsonText

  predicate LoneHigh(s: string) {
    High(Code(s)) && !Low(Code(s[6..]))
  }

  /** Wherever the decoded text shows the variable, the literal spells it. */
  predicate ShownIsSpelt(s: string, tok: string)
    requires Decode(s).Some?
    decreases |s|
  {
    s == "" ||
    ((tok <= Decode(s).value ==> tok <= s) && ShownIsSpelt(s[FirstUnit(s).len..], tok))
  }

  /** The text behind the variables it starts with. */
  function Behind(s: string, tok: string): string
    requires tok != ""
    decreases |s|
  {
    if tok <= s then Behind(s[|tok|..], tok) else s
  }

  /** Nowhere do only variables stand between a high surrogate escape and a low one. */
  predicate NoneJoin(s: string, tok: string)
    requires tok != "" && Decode(s).Some?
    decreases |s|
  {
    s == "" ||
    (!(LoneHigh(s) && Low(Code(Behind(s[6..], tok)))) && NoneJoin(s[FirstUnit(s).len..], tok))
  }

  /** A variable that JSON writes as it is. */
  predicate JsonPlain(tok: string) {
    forall i :: 0 <= i < |tok| ==> tok[i] != '"' && tok[i] != '\\' && tok[i] >= ' '
  }

  lemma {:induction false} DecodePlain(w: string, rest: string)
    requires JsonPlain(w)
    ensures Decode(w + rest) == Prepend(w, Decode(rest))
    decreases |w|
  {
    if w == "" {
      assert w + rest == rest;
      if Decode(rest).Some? { assert w + Decode(rest).value == Decode(rest).value; }
    } else {
      DecodePlain(w[1..], rest);
      DecodeUnit(w + rest, 1, w[0]);
      assert (w + rest)[1..] == w[1..] + rest;
      PrependTwice([w[0]], w[1..], Decode(rest));
      assert [w[0]] + w[1..] == w;
    }
  }

  lemma {:induction false} SkipNoDollar(w: string, rest: string, tok: string, v: string)
    requires IsToken(tok) && forall i :: 0 <= i < |w| ==> w[i] != '$'
    ensures ReplaceAll(w + rest, tok, v) == w + ReplaceAll(rest, tok, v)
    decreases |w|
  {
    if w == "" {
      assert w + rest == rest;
    } else {
      assert (w + rest)[1..] == w[1..] + rest;
      SkipNoDollar(w[1..], rest, tok, v);
      assert [w[0]] + (w[1..] + ReplaceAll(rest, tok, v)) == w + ReplaceAll(rest, tok, v);
    }
  }

  lemma EscapeHasNoDollar(s: string)
    requires s != "" && FirstUnit(s).Unit? && FirstUnit(s).len > 1
    ensures forall i :: 0 <= i < FirstUnit(s).len ==> s[i] != '$'
  {
    if FirstUnit(s).len == 12 {
      var r := s[6..];
      assert forall i :: 0 <= i < 6 ==> r[i] == s[6 + i];
      forall i | 6 <= i < 12 ensures s[i] != '$' { assert s[i] == r[i - 6]; }
    }
  }

  /** A step passes over the first character of a literal, unless it starts the variable. */
  lemma StepPastUnit(s: string, tok: string, v: string)
    requires IsToken(tok) && s != "" && FirstUnit(s).Unit? && !(tok <= s)
    ensures var n := FirstUnit(s).len; ReplaceAll(s, tok, v) == s[..n] + ReplaceAll(s[n..], tok, v)
  {
    var n := FirstUnit(s).len;
    if n == 1 {
      assert s[..1] == [s[0]];
    } else {
      EscapeHasNoDollar(s);
      SkipNoDollar(s[..n], s[n..], tok, v);
      assert s[..n] + s[n..] == s;
    }
  }

  lemma CodePrefix(s: string, t: string)
    requires |s| >= 6 && |t| >= 6 && s[..6] == t[..6]
    ensures Code(s) == Code(t)
  {
    assert forall i :: 0 <= i < 6 ==> s[i] == s[..6][i] && t[i] == t[..6][i];
  }

  /** What follows a unit does not change it, but for a low escape behind a lone high one. */
  lemma UnitKept(s: string, rest: string)
    requires s != "" && FirstUnit(s).Unit? && (LoneHigh(s) ==> !Low(Code(rest)))
    ensures var n := FirstUnit(s).len; FirstUnit(s[..n] + rest) == FirstUnit(s)
  {
    var n := FirstUnit(s).len;
    var t := s[..n] + rest;
    assert forall i :: 0 <= i < n ==> t[i] == s[i];
    if s[0] == '\\' {
      if n >= 6 {
        assert t[..6] == s[..6];
        CodePrefix(s, t);
        if n == 12 {
          assert t[6..][..6] == s[6..][..6];
          CodePrefix(s[6..], t[6..]);
        } else {
          assert t[6..] == rest;
        }
      } else {
        assert Code(t) == -1;
      }
    }
  }

  lemma {:induction false} WrittenFront(c: char, oldQuotes: bool, tail: string)
    ensures !Low(Code(Written(c, oldQuotes) + tail))
  {
    var x := Written(c, oldQuotes);
    assert (x + tail)[0] == x[0] && (|x| > 1 ==> (x + tail)[1] == x[1]);
    if !(oldQuotes && c == '"') { ReadWritten(c, tail); }
  }

  lemma {:induction false} WrittenNotLow(w: string, oldQuotes: bool, rest: string)
    requires w != ""
    ensures !Low(Code(WrittenText(w, oldQuotes) + rest))
  {
    hide Code;
    hide Written;
    var tail := WrittenText(w[1..], oldQuotes) + rest;
    assert WrittenText(w, oldQuotes) + rest == Written(w[0], oldQuotes) + tail;
    WrittenFront(w[0], oldQuotes, tail);
  }

  /** A step cannot put a low surrogate escape in front, if the value is not empty. */
  lemma {:induction false} LowKept(s: string, tok: string, w: string, oldQuotes: bool)
    requires IsToken(tok) && Decode(s).Some? && !Low(Code(s)) && w != ""
    ensures !Low(Code(ReplaceAll(s, tok, WrittenText(w, oldQuotes))))
  {
    var v := WrittenText(w, oldQuotes);
    if s == "" {
    } else if tok <= s {
      WrittenNotLow(w, oldQuotes, ReplaceAll(s[|tok|..], tok, v));
    } else {
      StepPastUnit(s, tok, v);
      LowInFront(s, ReplaceAll(s[FirstUnit(s).len..], tok, v));
    }
  }

  /** What the text behind a unit starts with decides whether a low escape is in front. */
  lemma LowInFront(s: string, rest: string)
    requires s != "" && FirstUnit(s).Unit?
    ensures Low(Code(s[..FirstUnit(s).len] + rest)) <==> Low(Code(s))
  {
    var n := FirstUnit(s).len;
    var t := s[..n] + rest;
    assert forall i :: 0 <= i < n ==> t[i] == s[i];
    if n >= 6 {
      assert t[..6] == s[..6];
      CodePrefix(s, t);
    }
  }

  lemma {:induction false} LowBehind(s: string, tok: string)
    requires IsToken(tok) && JsonPlain(tok) && Decode(s).Some?
    ensures Low(Code(ReplaceAll(s, tok, ""))) <==> Low(Code(Behind(s, tok)))
    decreases |s|
  {
    if s == "" {
    } else if tok <= s {
      DecodeBehind(s, tok);
      LowBehind(s[|tok|..], tok);
    } else {
      StepPastUnit(s, tok, "");
      LowInFront(s, ReplaceAll(s[FirstUnit(s).len..], tok, ""));
    }
  }

  lemma DecodeBehind(s: string, tok: string)
    requires JsonPlain(tok) && tok <= s && Decode(s).Some?
    ensures Decode(s[|tok|..]).Some? && Decode(s).value == tok + Decode(s[|tok|..]).value
  {
    assert s == tok + s[|tok|..];
    DecodePlain(tok, s[|tok|..]);
  }

  // ---- A step never breaks a literal -------------------------------------------------

  /** Behind a unit that is well formed, a well formed text is read on, even where two halves of a
      surrogate pair meet. */
  lemma JoinedDecodes(s: string, after: string)
    requires s != "" && FirstUnit(s).Unit? && Decode(after).Some?
    ensures Decode(s[..FirstUnit(s).len] + after).Some?
    ensures LoneHigh(s) && Low(Code(after)) ==>
      var r := Decode(after[6..]);
      && r.Some? && Decode(after) == Some("\U{FFFD}" + r.value)
      && Decode(s[..FirstUnit(s).len] + after) == Some([Joined(Code(s), Code(after))] + r.value)
    ensures !(LoneHigh(s) && Low(Code(after))) ==>
      Decode(s[..FirstUnit(s).len] + after) == Some([FirstUnit(s).c] + Decode(after).value)
  {
    var n := FirstUnit(s).len;
    var t := s[..n] + after;
    if LoneHigh(s) && Low(Code(after)) {
      assert t[..6] == s[..6] && t[6..] == after;
      CodePrefix(s, t);
      assert t[12..] == after[6..];
      DecodeUnit(after, 6, '\U{FFFD}');
      DecodeUnit(t, 12, Joined(Code(s), Code(after)));
    } else {
      UnitKept(s, after);
      DecodeUnit(t, n, FirstUnit(s).c);
      assert t[n..] == after;
    }
  }

  /** One step of a string value keeps every well-formed literal well formed. */
  lemma {:induction false} SpliceKeepsWellFormed(s: string, tok: string, w: string)
    requires IsToken(tok) && JsonPlain(tok) && Decode(s).Some?
    ensures Decode(ReplaceAll(s, tok, WrittenText(w, false))).Some?
    decreases |s|
  {
    var v := WrittenText(w, false);
    if s == "" {
    } else if tok <= s {
      DecodeBehind(s, tok);
      SpliceKeepsWellFormed(s[|tok|..], tok, w);
      DecodeWritten(w, ReplaceAll(s[|tok|..], tok, v));
    } else {
      var r := s[FirstUnit(s).len..];
      StepPastUnit(s, tok, v);
      SpliceKeepsWellFormed(r, tok, w);
      JoinedDecodes(s, ReplaceAll(r, tok, v));
    }
  }

  // ---- What the literal then means ---------------------------------------------------

  /** The decoded text with the variables replaced that the literal spells, and no others. */
  function Spelled(s: string, tok: string, w: string): string
    requires tok != "" && Decode(s).Some?
    decreases |s|
  {
    if s == "" then ""
    else if tok <= s then
      if Decode(s[|tok|..]).Some? then w + Spelled(s[|tok|..], tok, w) else ""
    else [FirstUnit(s).c] + Spelled(s[FirstUnit(s).len..], tok, w)
  }

  /** Inside a variable no other one is shown and no surrogate escape stands. */
  lemma {:induction false} InsideVariable(s: string, tok: string, k: nat)
    requires IsToken(tok) && JsonPlain(tok) && tok <= s && Decode(s).Some? && k <= |tok|
    ensures Decode(s[k..]).Some?
    ensures ShownIsSpelt(s, tok) <==> ShownIsSpelt(s[k..], tok)
    ensures NoneJoin(s, tok) <==> NoneJoin(s[k..], tok)
    decreases k
  {
    if k == 0 {
      assert s[0..] == s;
    } else {
      InsideVariable(s, tok, k - 1);
      var r := s[k - 1..];
      assert r[0] == tok[k - 1] && r[1..] == s[k..];
      if k > 1 { NotShownInside(s, tok, k - 1); }
    }
  }

  lemma NotShownInside(s: string, tok: string, k: nat)
    requires IsToken(tok) && JsonPlain(tok) && tok <= s && 0 < k < |tok| && Decode(s[k..]).Some?
    ensures !(tok <= Decode(s[k..]).value)
  {
    var rest := s[|tok|..];
    assert s == tok + rest;
    assert s[k..] == tok[k..] + rest;
    assert JsonPlain(tok[k..]);
    DecodePlain(tok[k..], rest);
    var d := Decode(s[k..]).value;
    assert d == tok[k..] + Decode(rest).value && d[0] == tok[k];
    assert !OpensAt(tok, k);
    if k + 1 < |tok| { assert d[1] == tok[k + 1]; }
  }

  /** If no two halves of a pair are brought together, that is what the literal means. */
  lemma {:induction false} SpliceMeansSpelled(s: string, tok: string, w: string)
    requires IsToken(tok) && JsonPlain(tok) && Decode(s).Some? && (w == "" ==> NoneJoin(s, tok))
    ensures Decode(ReplaceAll(s, tok, WrittenText(w, false))) == Some(Spelled(s, tok, w))
    decreases |s|
  {
    var v := WrittenText(w, false);
    if s == "" {
    } else if tok <= s {
      DecodeBehind(s, tok);
      InsideVariable(s, tok, |tok|);
      SpliceMeansSpelled(s[|tok|..], tok, w);
      DecodeWritten(w, ReplaceAll(s[|tok|..], tok, v));
    } else {
      var r := s[FirstUnit(s).len..];
      StepPastUnit(s, tok, v);
      SpliceMeansSpelled(r, tok, w);
      if LoneHigh(s) { StaysApart(s, tok, w); }
      JoinedDecodes(s, ReplaceAll(r, tok, v));
    }
  }

  lemma StaysApart(s: string, tok: string, w: string)
    requires IsToken(tok) && JsonPlain(tok) && s != "" && Decode(s).Some? && LoneHigh(s)
    requires w == "" ==> NoneJoin(s, tok)
    ensures !Low(Code(ReplaceAll(s[6..], tok, WrittenText(w, false))))
  {
    if w == "" { LowBehind(s[6..], tok); } else { LowKept(s[6..], tok, w, false); }
  }

  function Dollars(s: string): nat {
    if s == "" then 0 else (if s[0] == '$' then 1 else 0) + Dollars(s[1..])
  }

  lemma {:induction false} DollarsAppend(a: string, b: string)
    ensures Dollars(a + b) == Dollars(a) + Dollars(b)
    decreases |a|
  {
    if a == "" {
      assert a + b == b;
    } else {
      assert (a + b)[1..] == a[1..] + b;
      DollarsAppend(a[1..], b);
    }
  }

  /** Where two halves are brought together the text is a character shorter, and no `$` is gained
      or lost. */
  lemma {:induction false} JoiningShortens(s: string, tok: string)
    requires IsToken(tok) && JsonPlain(tok) && Decode(s).Some?
    ensures Shortened(Decode(ReplaceAll(s, tok, "")), Spelled(s, tok, ""), !NoneJoin(s, tok))
    decreases |s|
  {
    if s == "" {
    } else if tok <= s {
      DecodeBehind(s, tok);
      InsideVariable(s, tok, |tok|);
      JoiningShortens(s[|tok|..], tok);
      assert "" + ReplaceAll(s[|tok|..], tok, "") == ReplaceAll(s[|tok|..], tok, "");
      assert "" + Spelled(s[|tok|..], tok, "") == Spelled(s[|tok|..], tok, "");
    } else {
      JoiningShortens(s[FirstUnit(s).len..], tok);
      JoiningAtUnit(s, tok);
    }
  }

  /** `x` is there, no longer than `y` and, if `less`, shorter; both have the same number of `$`. */
  ghost predicate Shortened(x: Option<string>, y: string, less: bool) {
    x.Some? && Dollars(x.value) == Dollars(y) && |x.value| <= |y| && (less ==> |x.value| < |y|)
  }

  lemma {:induction false} JoiningAtUnit(s: string, tok: string)
    requires IsToken(tok) && JsonPlain(tok) && s != "" && Decode(s).Some? && !(tok <= s)
    requires var r := s[FirstUnit(s).len..];
      Shortened(Decode(ReplaceAll(r, tok, "")), Spelled(r, tok, ""), !NoneJoin(r, tok))
    ensures Shortened(Decode(ReplaceAll(s, tok, "")), Spelled(s, tok, ""), !NoneJoin(s, tok))
  {
    var u := FirstUnit(s);
    var r := s[u.len..];
    var after := ReplaceAll(r, tok, "");
    StepPastUnit(s, tok, "");
    JoinedDecodes(s, after);
    FirstOfRead(s, tok, "");
    LowBehind(r, tok);
    assert LoneHigh(s) ==> u.len == 6 && u.c == '\U{FFFD}';
    assert NoneJoin(s, tok) <==> !(LoneHigh(s) && Low(Code(after))) && NoneJoin(r, tok);
    hide *;
    if LoneHigh(s) && Low(Code(after)) {
      JoinedIsNoDollar(Code(s), Code(after));
      ShortenedByJoin(Joined(Code(s), Code(after)), Decode(after[6..]).value, Spelled(r, tok, ""), !NoneJoin(r, tok));
    } else {
      ShortenedBehind(u.c, Decode(after), Spelled(r, tok, ""), !NoneJoin(r, tok));
    }
  }

  lemma JoinedIsNoDollar(high: int, low: int)
    requires High(high) && Low(low)
    ensures Joined(high, low) != '$'
  {
  }

  lemma ShortenedBehind(c: char, x: Option<string>, y: string, less: bool)
    requires Shortened(x, y, less)
    ensures Shortened(Some([c] + x.value), [c] + y, less)
  {
    DollarsAppend([c], x.value);
    DollarsAppend([c], y);
  }

  lemma ShortenedByJoin(c: char, rest: string, y: string, less: bool)
    requires Shortened(Some("\U{FFFD}" + rest), y, less) && c != '$'
    ensures Shortened(Some([c] + rest), "\U{FFFD}" + y, true)
  {
    DollarsAppend("\U{FFFD}", rest);
    DollarsAppend([c], rest);
    DollarsAppend("\U{FFFD}", y);
  }

  lemma FirstOfRead(s: string, tok: string, w: string)
    requires tok != "" && s != "" && Decode(s).Some? && !(tok <= s)
    ensures var u := FirstUnit(s);
      && u.Unit? && Decode(s[u.len..]).Some? && Decode(s).value[0] == u.c
      && Decode(s).value[1..] == Decode(s[u.len..]).value
      && Spelled(s, tok, w) == [u.c] + Spelled(s[u.len..], tok, w)
  {
  }

  lemma NotEmptyRead(s: string)
    requires Decode(s).Some? && Decode(s).value != ""
    ensures s != ""
  {
  }

  /** Of the units that show (the rest of) a variable which the literal does not spell, a step
      touches none. */
  lemma {:induction false} PassShown(s: string, tok: string, k: nat, w: string) returns (n: nat)
    requires IsToken(tok) && JsonPlain(tok) && Decode(s).Some? && k <= |tok| && tok[k..] <= Decode(s).value
    requires k == 0 ==> !(tok <= s)
    ensures n <= |s| && (k < |tok| ==> n > 0)
    ensures Decode(s[n..]) == Some(Decode(s).value[|tok| - k..])
    ensures Spelled(s, tok, w) == tok[k..] + Spelled(s[n..], tok, w)
    decreases |tok| - k
  {
    hide FirstUnit, Decode, Spelled, IsToken, JsonPlain;
    var d := Decode(s).value;
    if k == |tok| {
      n := 0;
      assert s[0..] == s && d[0..] == d;
      assert tok[k..] + Spelled(s, tok, w) == Spelled(s, tok, w);
    } else {
      NotEmptyRead(s);
      NotSpeltInside(s, tok, k);
      FirstOfRead(s, tok, w);
      var u := FirstUnit(s);
      Shorter(d, tok, k);
      var m := PassShown(s[u.len..], tok, k + 1, w);
      n := u.len + m;
      assert s[u.len..][m..] == s[n..];
      Associates([tok[k]], tok[k + 1..], Spelled(s[n..], tok, w));
    }
  }

  lemma Shorter(d: string, tok: string, k: nat)
    requires k < |tok| && tok[k..] <= d
    ensures d != "" && d[0] == tok[k] && tok[k + 1..] <= d[1..]
    ensures d[1..][|tok| - (k + 1)..] == d[|tok| - k..] && [tok[k]] + tok[k + 1..] == tok[k..]
  {
    assert d[0] == tok[k..][0];
    assert tok[k..][1..] == tok[k + 1..];
  }

  lemma NotSpeltInside(s: string, tok: string, k: nat)
    requires IsToken(tok) && JsonPlain(tok) && Decode(s).Some? && k < |tok| && tok[k..] <= Decode(s).value
    requires k == 0 ==> !(tok <= s)
    ensures !(tok <= s)
  {
    var d := Decode(s).value;
    assert d[0] == tok[k..][0] == tok[k];
    if k + 1 < |tok| { assert d[1] == tok[k..][1] == tok[k + 1]; }
    assert k > 0 ==> !OpensAt(tok, k);
    if tok <= s { DecodeBehind(s, tok); }
  }

  /** How the text with the spelt variables replaced compares with the one with all the shown ones
      replaced. */
  ghost predicate Compared(x: string, y: string, tok: string, w: string, same: bool) {
    && (same || w == tok ==> x == y)
    && (|w| > |tok| ==> |x| <= |y| && (!same ==> |x| < |y|))
    && (|w| < |tok| ==> |x| >= |y| && (!same ==> |x| > |y|))
    && (|w| == |tok| ==> |x| == |y| && (!same && w != tok ==> x != y))
    && (w == "" ==> Dollars(x) >= Dollars(y) && (!same ==> Dollars(x) > Dollars(y)))
  }

  lemma ComparedBehind(a: string, x: string, y: string, tok: string, w: string, same: bool)
    requires Compared(x, y, tok, w, same)
    ensures Compared(a + x, a + y, tok, w, same)
  {
    DollarsAppend(a, x);
    DollarsAppend(a, y);
    assert (a + x)[|a|..] == x && (a + y)[|a|..] == y;
  }

  lemma ComparedAtMiss(x: string, y: string, tok: string, w: string, same: bool)
    requires Compared(x, y, tok, w, same) && IsToken(tok)
    ensures Compared(tok + x, w + y, tok, w, false)
  {
    DollarsAppend(tok, x);
    DollarsAppend(w, y);
    if |w| == |tok| { assert (tok + x)[..|tok|] == tok && (w + y)[..|tok|] == w; }
  }

  lemma {:induction false} SpelledAgainstShown(s: string, tok: string, w: string)
    requires IsToken(tok) && JsonPlain(tok) && Decode(s).Some?
    ensures Compared(Spelled(s, tok, w), ReplaceAll(Decode(s).value, tok, w), tok, w, ShownIsSpelt(s, tok))
    decreases |s|
  {
    hide Compared;
    if s == "" {
      ComparedEmpty(tok, w);
    } else if tok <= s {
      DecodeBehind(s, tok);
      var r := s[|tok|..];
      SpelledAgainstShown(r, tok, w);
      InsideVariable(s, tok, |tok|);
      assert (tok + Decode(r).value)[|tok|..] == Decode(r).value;
      ComparedBehind(w, Spelled(r, tok, w), ReplaceAll(Decode(r).value, tok, w), tok, w, ShownIsSpelt(r, tok));
    } else {
      AgainstShownAtUnit(s, tok, w);
    }
  }

  lemma {:induction false} AgainstShownAtUnit(s: string, tok: string, w: string)
    requires IsToken(tok) && JsonPlain(tok) && Decode(s).Some? && s != "" && !(tok <= s)
    ensures Compared(Spelled(s, tok, w), ReplaceAll(Decode(s).value, tok, w), tok, w, ShownIsSpelt(s, tok))
    decreases |s|, 0
  {
    hide Compared;
    var d := Decode(s).value;
    if tok <= d {
      assert tok[0..] == tok;
      var n := PassShown(s, tok, 0, w);
      var r := s[n..];
      SpelledAgainstShown(r, tok, w);
      ComparedAtMiss(Spelled(r, tok, w), ReplaceAll(Decode(r).value, tok, w), tok, w, ShownIsSpelt(r, tok));
    } else {
      var u := FirstUnit(s);
      var r := s[u.len..];
      SpelledAgainstShown(r, tok, w);
      assert d == [u.c] + Decode(r).value && d[1..] == Decode(r).value;
      ComparedBehind([u.c], Spelled(r, tok, w), ReplaceAll(Decode(r).value, tok, w), tok, w, ShownIsSpelt(r, tok));
    }
  }

  lemma ComparedEmpty(tok: string, w: string)
    ensures Compared("", "", tok, w, true)
  {
  }

  /** The meaning of the literal after the step is the same step on the decoded text, with the value
      as it was before it was written, exactly when the literal spells every variable it shows and,
      for an empty value, no two halves of a surrogate pair are brought together (or when the value
      is the variable itself, and the step changes nothing). */
  lemma SpliceExact(s: string, tok: string, w: string)
    requires IsToken(tok) && JsonPlain(tok) && Decode(s).Some?
    ensures Decode(ReplaceAll(s, tok, WrittenText(w, false))) == Some(ReplaceAll(Decode(s).value, tok, w)) <==>
      w == tok || (ShownIsSpelt(s, tok) && (w == "" ==> NoneJoin(s, tok)))
  {
    assert tok != "";
    hide ReplaceAll, Decode, ShownIsSpelt, NoneJoin, Spelled, IsToken, JsonPlain;
    SpelledAgainstShown(s, tok, w);
    if w == "" && !NoneJoin(s, tok) {
      JoiningShortens(s, tok);
    } else {
      SpliceMeansSpelled(s, tok, w);
    }
  }

  /** With old-escape, a value with a quote leaves the literal ill formed. */
  lemma {:induction false} OldSpliceFails(s: string, tok: string, w: string)
    requires IsToken(tok) && Decode(s).Some? && Occurs(tok, s) && '"' in w
    ensures Decode(ReplaceAll(s, tok, WrittenText(w, true))) == None
    decreases |s|
  {
    var v := WrittenText(w, true);
    if tok <= s {
      DecodeOldQuote(w, ReplaceAll(s[|tok|..], tok, v));
    } else {
      var u := FirstUnit(s);
      var r := s[u.len..];
      var after := ReplaceAll(r, tok, v);
      OccursPastUnit(s, tok);
      StepPastUnit(s, tok, v);
      OldSpliceFails(r, tok, w);
      if LoneHigh(s) { LowKept(r, tok, w, true); }
      UnitKept(s, after);
      DecodeUnit(s[..u.len] + after, u.len, u.c);
      assert (s[..u.len] + after)[u.len..] == after;
    }
  }

  lemma OccursPastUnit(s: string, tok: string)
    requires IsToken(tok) && s != "" && FirstUnit(s).Unit? && !(tok <= s) && Occurs(tok, s)
    ensures Occurs(tok, s[FirstUnit(s).len..])
  {
    var n := FirstUnit(s).len;
    var i :| 0 <= i <= |s| && tok <= s[i..];
    assert s[0..] == s;
    TokenOpens(tok, s, i);
    if n > 1 { EscapeHasNoDollar(s); }
    assert s[n..][i - n..] == s[i..];
  }

  // ---- The step of the source --------------------------------------------------------

  /** A JSONPath result with one match, as text to embed. */
  datatype Found = Null | Str(s: string) | Other(json: string)

  function ResultText(v: Found): string {
    match v
    case Null => "null"
    case Str(s) => WrittenText(s, false)
    case Other(json) => json
  }

  lemma {:induction false} QuoteStep(tail: string)
    ensures ReplaceAll("\\\"" + tail, "\"", "\\\"") == "\\\\\"" + ReplaceAll(tail, "\"", "\\\"")
  {
    var s := "\\\"" + tail;
    assert s[0] == '\\' && s[1..] == "\"" + tail;
    assert s[1..][0] == '"' && s[1..][1..] == tail;
  }

  lemma {:induction false} WrittenOld(s: string)
    ensures ReplaceAll(WrittenText(s, false), "\"", "\\\"") == WrittenText(s, true)
    decreases |s|
  {
    if s != "" {
      var w, tail := Written(s[0], false), WrittenText(s[1..], false);
      WrittenQuote(s[0]);
      WrittenOld(s[1..]);
      hide ReplaceAll, Written;
      if s[0] == '"' {
        QuoteStep(tail);
      } else {
        NoQuoteSkip(w, tail);
      }
    }
  }

  lemma WrittenQuote(c: char)
    ensures c == '"' ==> Written(c, false) == "\\\"" && Written(c, true) == "\\\\\""
    ensures c != '"' ==> Written(c, false) == Written(c, true) && '"' !in Written(c, false)
  {
  }

  lemma {:induction false} NoQuoteSkip(w: string, tail: string)
    requires '"' !in w
    ensures ReplaceAll(w + tail, "\"", "\\\"") == w + ReplaceAll(tail, "\"", "\\\"")
    decreases |w|
  {
    if w == "" {
      assert w + tail == tail;
    } else {
      assert w[0] in w;
      assert (w + tail)[1..] == w[1..] + tail;
      NoQuoteSkip(w[1..], tail);
      assert [w[0]] + (w[1..] + ReplaceAll(tail, "\"", "\\\"")) == w + ReplaceAll(tail, "\"", "\\\"");
    }
  }

  /** A string result of the event, spliced into a literal of the template, leaves it well formed,
      whatever else stands in it. */
  lemma StringResultWellFormed(name: string, s: string, lit: string)
    requires NoOpens(name) && JsonPlain(name) && Decode(lit).Some?
    ensures Decode(ApplyParamToResourceTemplate(Param(name, ResultText(Str(s))), lit, false)).Some?
  {
    ParamTokenIsToken(name);
    TokenJsonPlain(name);
    EscapeCommutes(s, false);
    SpliceKeepsWellFormed(lit, ParamToken(name), EscapeTekton(s));
  }

  /** It decodes to the decoded template with the variable replaced by the Tekton-escaped original
      string exactly when the literal spells each variable it shows and, for an empty string, no
      high surrogate escape is separated from a low one by variables only. */
  lemma StringResultInLiteral(name: string, s: string, lit: string)
    requires NoOpens(name) && JsonPlain(name) && Decode(lit).Some?
    ensures Decode(ApplyParamToResourceTemplate(Param(name, ResultText(Str(s))), lit, false)) ==
            Some(ReplaceAll(Decode(lit).value, ParamToken(name), EscapeTekton(s))) <==>
      ShownIsSpelt(lit, ParamToken(name)) && (s == "" ==> NoneJoin(lit, ParamToken(name)))
  {
    hide Decode, ShownIsSpelt, NoneJoin, WrittenText, ReplaceAll, IsToken, JsonPlain;
    ParamTokenIsToken(name);
    TokenJsonPlain(name);
    EscapeCommutes(s, false);
    EscapeFront(s);
    SpliceExact(lit, ParamToken(name), EscapeTekton(s));
  }

  lemma {:induction false} QuotesKept(s: string)
    ensures '"' in EscapeTekton(s) <==> '"' in s
    decreases |s|
  {
    if s == "" {
    } else if "$(" <= s {
      QuotesKept(s[2..]);
      assert s == "$(" + s[2..];
    } else {
      QuotesKept(s[1..]);
      assert s == [s[0]] + s[1..];
    }
  }

  lemma {:induction false} OldIsSame(w: string)
    requires '"' !in w
    ensures WrittenText(w, true) == WrittenText(w, false)
    decreases |w|
  {
    if w != "" {
      assert w[0] in w;
      OldIsSame(w[1..]);
    }
  }

  lemma TokenJsonPlain(name: string)
    requires JsonPlain(name)
    ensures JsonPlain(ParamToken(name))
  {
  }

  /** Under the old-escape annotation the same step keeps the literal well formed exactly when the
      string holds no quote or the literal does not hold the variable. */
  lemma OldEscapeExact(name: string, s: string, lit: string)
    requires NoOpens(name) && JsonPlain(name) && Decode(lit).Some?
    ensures Decode(ApplyParamToResourceTemplate(Param(name, ResultText(Str(s))), lit, true)).Some? <==>
      '"' !in s || !Occurs(ParamToken(name), lit)
  {
    hide Decode, WrittenText, ReplaceAll, Occurs, IsToken, JsonPlain;
    ParamTokenIsToken(name);
    TokenJsonPlain(name);
    EscapeCommutes(s, true);
    WrittenOld(s);
    QuotesKept(s);
    var w := EscapeTekton(s);
    if '"' !in s {
      OldIsSame(w);
      SpliceKeepsWellFormed(lit, ParamToken(name), w);
    } else if Occurs(ParamToken(name), lit) {
      OldSpliceFails(lit, ParamToken(name), w);
    } else {
      ReplaceAbsent(lit, ParamToken(name), WrittenText(w, true));
    }
  }

  lemma {:induction false} EscapedDollar(rest: string)
    requires JsonPlain(rest)
    ensures Decode("\\u0024" + rest) == Some("$" + rest)
  {
    var lit := "\\u0024" + rest;
    assert lit[0] == '\\' && lit[1] == 'u' && lit[2] == '0' && lit[3] == '0' && lit[4] == '2' && lit[5] == '4';
    assert Code(lit) == 0x24;
    DecodeUnit(lit, 6, '$');
    assert lit[6..] == rest + "";
    DecodePlain(rest, "");
    assert Decode("") == Some("") && rest + "" == rest;
  }

  /** Where the template writes the `$` of a variable as an escape, the step misses it although
      the decoded template shows the variable: `ShownIsSpelt` is needed. */
  lemma EscapedVariableIsMissed(name: string, value: string)
    requires NoOpens(name) && JsonPlain(name)
    ensures var lit := "\\u0024" + ParamToken(name)[1..];
      && Decode(lit) == Some(ParamToken(name))
      && ApplyParamToResourceTemplate(Param(name, value), lit, false) == lit
  {
    var tok := ParamToken(name);
    var rest := tok[1..];
    ParamTokenIsToken(name);
    assert JsonPlain(rest) && "$" + rest == tok;
    EscapedDollar(rest);
    TailHasNone(tok);
    var lit := "\\u0024" + rest;
    hide ReplaceAll, Decode, IsToken, ParamToken, Occurs, JsonPlain, Encoded;
    SkipNoDollar("\\u0024", rest, tok, Encoded(value, false));
    ReplaceAbsent(rest, tok, Encoded(value, false));
  }

  lemma TailHasNone(tok: string)
    requires IsToken(tok)
    ensures !Occurs(tok, tok[1..])
  {
    TokenTail(tok, 1);
    NoOpenNoToken(tok[1..], tok);
  }

  lemma {:induction false} DecodeEscapes(high: string, low: string, tok: string)
    requires |high| == |low| == 6 && High(Code(high)) && Low(Code(low)) && JsonPlain(tok) && OpensAt(tok, 0)
    ensures Decode(high + tok + low) == Some("\U{FFFD}" + tok + "\U{FFFD}")
    ensures Decode(high + low) == Some([Joined(Code(high), Code(low))])
  {
    var a, b := high + (tok + low), high + low;
    assert high + tok + low == a;
    assert a[..6] == high && a[6..] == tok + low && b[..6] == high && b[6..] == low;
    CodePrefix(high, a);
    CodePrefix(high, b);
    assert a[6] == '$' && Code(a[6..]) == -1;
    assert low[6..] == "" && b[12..] == "";
    DecodeUnit(low, 6, '\U{FFFD}');
    assert Decode("") == Some("") && "\U{FFFD}" + "" == "\U{FFFD}";
    DecodePlain(tok, low);
    assert Decode(a[6..]) == Some(tok + "\U{FFFD}");
    DecodeUnit(a, 6, '\U{FFFD}');
    DecodeUnit(b, 12, Joined(Code(high), Code(low)));
    assert [Joined(Code(high), Code(low))] + "" == [Joined(Code(high), Code(low))];
    assert "\U{FFFD}" + (tok + "\U{FFFD}") == "\U{FFFD}" + tok + "\U{FFFD}";
  }

  /** Between a high and a low surrogate escape an empty string makes one character of what were two
      replacement characters: `NoneJoin` is needed. */
  lemma {:induction false} EmptyValueJoinsHalves(name: string)
    requires NoOpens(name) && JsonPlain(name)
    ensures var lit, tok := "\\ud83d" + ParamToken(name) + "\\ude00", ParamToken(name);
      && Decode(lit) == Some("\U{FFFD}" + tok + "\U{FFFD}")
      && Decode(ApplyParamToResourceTemplate(Param(name, ResultText(Str(""))), lit, false)) == Some("\U{1F600}")
      && ReplaceAll(Decode(lit).value, tok, "") == "\U{FFFD}\U{FFFD}"
  {
    var high, low, tok := "\\ud83d", "\\ude00", ParamToken(name);
    ParamTokenIsToken(name);
    TokenJsonPlain(name);
    assert Code(high) == 0xD83D && Code(low) == 0xDE00;
    assert tok != "" && Encoded(WrittenText("", false), false) == "";
    hide Decode, ReplaceAll, Code, ParamToken, JsonPlain;
    DecodeEscapes(high, low, tok);
    BetweenPlain(high, tok, low);
    BetweenPlain("\U{FFFD}", tok, "\U{FFFD}");
  }

  /** A variable between two texts without `$` is cut out of them. */
  lemma {:induction false} BetweenPlain(a: string, tok: string, b: string)
    requires IsToken(tok) && '$' !in a && '$' !in b
    ensures ReplaceAll(a + tok + b, tok, "") == a + b
  {
    assert a + tok + b == a + (tok + b);
    forall i | 0 <= i < |a| ensures a[i] != '$' { assert a[i] in a; }
    SkipNoDollar(a, tok + b, tok, "");
    forall i | 0 <= i < |b| ensures !OpensAt(b, i) { assert b[i] in b; }
    ReplaceFront(tok, b, "");
    assert "" + b == b;
  }
}
