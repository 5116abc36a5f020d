/** Finding `$(...)` expressions in a binding value (the bracket-counting scanner of the event
    stage) and the admission check on binding values, which repeats the same scan. */
module Scanner {
  import opened Text
  import opened Substitution

  /** Cut at every separator; there is always at least one piece. */
  function Split(s: string, sep: string): (pieces: seq<string>)
    requires sep != ""
    ensures pieces != []
    decreases |s|
  {
    if s == "" then [""]
    else if sep <= s then [""] + Split(s[|sep|..], sep)
    else
      var rest := Split(s[1..], sep);
      [[s[0]] + rest[0]] + rest[1..]
  }

  // ---- What an expression is ---------------------------------------------------------

  /** Opening minus closing brackets. */
  function Depth(s: string): int {
    if s == "" then 0
    else Depth(s[..|s| - 1]) + (if s[|s| - 1] == '(' then 1 else if s[|s| - 1] == ')' then -1 else 0)
  }

  /** The inside of an expression: brackets balanced and never closed too early, no `$(`. */
  ghost predicate IsBody(b: string) {
    && Depth(b) == 0
    && (forall k :: 0 <= k <= |b| ==> Depth(b[..k]) >= 0)
    && (forall i :: 0 <= i < |b| ==> !OpensAt(b, i))
  }

  /** `text[p..q]` is `$(body)`. */
  ghost predicate IsExprAt(text: string, p: int, q: int) {
    && OpensAt(text, p)
    && p + 2 <= q < |text|
    && text[q] == ')'
    && IsBody(text[p + 2..q])
  }

  function Wrap(body: string): string {
    "$(" + body + ")"
  }

  /** All expressions of the text that start at `p` or later, in the order of the text. */
  ghost function OriginalsFrom(text: string, p: nat): seq<string>
    decreases |text| - p
  {
    if p >= |text| then []
    else if exists q :: IsExprAt(text, p, q) then
      var q :| IsExprAt(text, p, q);
      [text[p..q + 1]] + OriginalsFrom(text, p + 1)
    else OriginalsFrom(text, p + 1)
  }

  lemma DepthStep(s: string, k: nat)
    requires k < |s|
    ensures Depth(s[..k + 1]) == Depth(s[..k]) + (if s[k] == '(' then 1 else if s[k] == ')' then -1 else 0)
  {
    assert s[..k + 1][..k] == s[..k];
  }

  /** An expression ends at its first unbalanced bracket, so it cannot be a proper prefix of another. */
  lemma BodiesPrefixFree(b: string, b': string)
    requires IsBody(b) && IsBody(b') && Comparable(Wrap(b), Wrap(b'))
    ensures b == b'
  {
    if |b| < |b'| {
      ShorterBody(b, b');
    } else if |b'| < |b| {
      ShorterBody(b', b);
    } else {
      assert b == Wrap(b)[2..|b| + 2] && b' == Wrap(b')[2..|b| + 2];
    }
  }

  lemma ShorterBody(b: string, b': string)
    requires IsBody(b) && IsBody(b') && |b| < |b'|
    ensures !(Wrap(b) <= Wrap(b'))
  {
    if Wrap(b) <= Wrap(b') {
      var k := |b|;
      assert b'[..k] == Wrap(b')[2..k + 2] == Wrap(b)[2..k + 2] == b;
      assert b'[k] == Wrap(b')[k + 2] == Wrap(b)[k + 2] == ')';
      DepthStep(b', k);
    }
  }

  lemma ExprUnique(text: string, p: int, q: int, q': int)
    requires IsExprAt(text, p, q) && IsExprAt(text, p, q')
    ensures q == q'
  {
    var b, b' := text[p + 2..q], text[p + 2..q'];
    assert Wrap(b) == text[p..q + 1] && Wrap(b') == text[p..q' + 1];
    PrefixesCompare(Wrap(b), Wrap(b'), text[p..]);
    BodiesPrefixFree(b, b');
  }

  /** Every wrapped body is a token of the substitution theory. */
  lemma WrapIsToken(b: string)
    requires IsBody(b)
    ensures IsToken(Wrap(b))
  {
    var t := Wrap(b);
    forall i | 0 < i < |t| ensures !OpensAt(t, i) {
      assert i >= 2 ==> !OpensAt(b, i - 2);
    }
  }

  // ---- Scanning one piece ------------------------------------------------------------

  /** Index of the first bracket that closes more than was opened, or the length. */
  function FirstUnbalanced(e: string, i: nat, depth: nat): (k: nat)
    requires i <= |e|
    ensures i <= k <= |e|
    decreases |e| - i
  {
    if i == |e| then |e|
    else if e[i] == '(' then FirstUnbalanced(e, i + 1, depth + 1)
    else if e[i] == ')' then (if depth == 0 then i else FirstUnbalanced(e, i + 1, depth - 1))
    else FirstUnbalanced(e, i + 1, depth)
  }

  lemma {:induction false} FirstUnbalancedMeaning(e: string, i: nat, depth: nat)
    requires i <= |e| && Depth(e[..i]) == depth
    requires forall k :: 0 <= k <= i ==> Depth(e[..k]) >= 0
    ensures var k := FirstUnbalanced(e, i, depth);
      && (forall j :: 0 <= j <= k ==> Depth(e[..j]) >= 0)
      && (k < |e| ==> e[k] == ')' && Depth(e[..k]) == 0)
    decreases |e| - i
  {
    if i < |e| {
      DepthStep(e, i);
      if e[i] == '(' {
        FirstUnbalancedMeaning(e, i + 1, depth + 1);
      } else if e[i] == ')' {
        if depth > 0 { FirstUnbalancedMeaning(e, i + 1, depth - 1); }
      } else {
        FirstUnbalancedMeaning(e, i + 1, depth);
      }
    }
  }

  /** A piece of the text between two `$(`s. */
  ghost predicate IsPiece(text: string, p: nat, e: string) {
    && OpensAt(text, p)
    && p + 2 + |e| <= |text|
    && text[p + 2..p + 2 + |e|] == e
    && (forall i :: p < i < p + 2 + |e| ==> !OpensAt(text, i))
    && (p + 2 + |e| < |text| ==> OpensAt(text, p + 2 + |e|))
  }

  /** The scan of a piece finds the expression at its `$(`, or proves that there is none. */
  lemma {:induction false} PieceScan(text: string, p: nat, e: string)
    requires IsPiece(text, p, e)
    ensures FirstUnbalanced(e, 0, 0) < |e| ==> IsExprAt(text, p, p + 2 + FirstUnbalanced(e, 0, 0))
    ensures FirstUnbalanced(e, 0, 0) == |e| ==> forall q :: !IsExprAt(text, p, q)
  {
    var k := FirstUnbalanced(e, 0, 0);
    FirstUnbalancedMeaning(e, 0, 0);
    if k < |e| {
      ExprInPiece(text, p, e, k);
    } else {
      forall q ensures !IsExprAt(text, p, q) { NoExprInPiece(text, p, e, q); }
    }
  }

  lemma ExprInPiece(text: string, p: nat, e: string, k: nat)
    requires IsPiece(text, p, e) && k < |e| && e[k] == ')' && Depth(e[..k]) == 0
    requires forall j :: 0 <= j <= k ==> Depth(e[..j]) >= 0
    ensures IsExprAt(text, p, p + 2 + k)
  {
    var b := e[..k];
    assert text[p + 2..p + 2 + k] == b by {
      assert text[p + 2..p + 2 + |e|][..k] == text[p + 2..p + 2 + k];
    }
    forall j | 0 <= j <= |b| ensures Depth(b[..j]) >= 0 { assert b[..j] == e[..j]; }
    forall j | 0 <= j < |b| ensures !OpensAt(b, j) {
      assert !OpensAt(text, p + 2 + j);
    }
  }

  lemma NoExprInPiece(text: string, p: nat, e: string, q: int)
    requires IsPiece(text, p, e)
    requires forall j :: 0 <= j <= |e| ==> Depth(e[..j]) >= 0
    ensures !IsExprAt(text, p, q)
  {
    if IsExprAt(text, p, q) {
      var b := text[p + 2..q];
      var n, k := p + 2 + |e|, q - p - 2;
      if n < |text| { ClosedBefore(text, p, q, n); }
      assert e[..k] == b by { assert text[p + 2..n][..k] == text[p + 2..q]; }
      assert e[k] == ')' by { assert text[p + 2..n][k] == text[q]; }
      DepthStep(e, k);
    }
  }

  lemma {:induction false} SkipClosed(text: string, p: nat, n: nat)
    requires p <= n <= |text| && forall i :: p <= i < n ==> !OpensAt(text, i)
    ensures OriginalsFrom(text, p) == OriginalsFrom(text, n)
    decreases n - p
  {
    if p < n {
      SkipClosed(text, p + 1, n);
    }
  }

  lemma {:induction false} PieceOriginals(text: string, p: nat, e: string)
    requires IsPiece(text, p, e)
    ensures var k := FirstUnbalanced(e, 0, 0); var n := p + 2 + |e|;
      OriginalsFrom(text, p) == (if k < |e| then [Wrap(e[..k])] else []) + OriginalsFrom(text, n)
  {
    var k := FirstUnbalanced(e, 0, 0);
    PieceScan(text, p, e);
    SkipClosed(text, p + 1, p + 2 + |e|);
    if k < |e| {
      var q := p + 2 + k;
      assert text[p..q + 1] == Wrap(e[..k]) by {
        assert text[p + 2..p + 2 + |e|][..k] == text[p + 2..q];
      }
      hide IsExprAt, IsPiece, FirstUnbalanced, OpensAt, OriginalsFrom;
      FirstOriginal(text, p, q);
    } else {
      NoOriginalHere(text, p);
    }
  }

  lemma NoOriginalHere(text: string, p: nat)
    requires p < |text| && forall q :: !IsExprAt(text, p, q)
    ensures OriginalsFrom(text, p) == OriginalsFrom(text, p + 1)
  {
  }

  // ---- Where the pieces of a split lie -----------------------------------------------

  /** The text in front of the first `$(`. */
  ghost predicate IsLead(text: string, e: string) {
    && e <= text
    && (forall i :: 0 <= i < |e| ==> !OpensAt(text, i))
    && (|e| < |text| ==> OpensAt(text, |e|))
  }

  /** Position of the `$(` in front of piece `c`; for `c` past the end, the end of the text. */
  function PieceStart(pieces: seq<string>, c: nat): nat
    requires 1 <= c <= |pieces|
  {
    if c == 1 then |pieces[0]| else PieceStart(pieces, c - 1) + 2 + |pieces[c - 1]|
  }

  lemma OpensTail(text: string, k: nat, i: nat)
    requires k <= |text|
    ensures OpensAt(text[k..], i) == OpensAt(text, k + i)
  {
  }

  lemma PieceTail(text: string, k: nat, p: nat, e: string)
    requires k <= |text| && IsPiece(text[k..], p, e)
    ensures IsPiece(text, k + p, e)
  {
    OpensTail(text, k, p);
    OpensTail(text, k, p + 2 + |e|);
    assert text[k..][p + 2..p + 2 + |e|] == text[k + p + 2..k + p + 2 + |e|];
    forall i | k + p < i < k + p + 2 + |e| ensures !OpensAt(text, i) { OpensTail(text, k, i - k); }
  }

  lemma {:induction false} SplitLead(text: string)
    ensures IsLead(text, Split(text, "$(")[0])
    ensures |Split(text, "$(")| == 1 ==> Split(text, "$(")[0] == text
    ensures |Split(text, "$(")| > 1 ==> |Split(text, "$(")[0]| < |text|
    decreases |text|
  {
    if text == "" {
    } else if "$(" <= text {
    } else {
      SplitLead(text[1..]);
      var e := Split(text[1..], "$(")[0];
      assert [text[0]] + e <= text;
      forall i | 0 <= i < 1 + |e| ensures !OpensAt(text, i) {
        if i > 0 { OpensTail(text, 1, i - 1); }
      }
      OpensTail(text, 1, |e|);
    }
  }

  lemma {:induction false} PieceStartShift(a: seq<string>, b: seq<string>, shift: nat, c: nat)
    requires 1 <= c <= |a| == |b| && |b[0]| == |a[0]| + shift && a[1..] == b[1..]
    ensures PieceStart(b, c) == PieceStart(a, c) + shift
    decreases c
  {
    if c > 1 {
      assert a[1..][c - 2] == a[c - 1] && b[1..][c - 2] == b[c - 1];
      PieceStartShift(a, b, shift, c - 1);
    }
  }

  lemma {:induction false} PieceStartCons(a: seq<string>, c: nat)
    requires 1 <= c <= |a|
    ensures PieceStart([""] + a, c + 1) == PieceStart(a, c) + 2
    decreases c
  {
    var b := [""] + a;
    assert b[c] == a[c - 1];
    if c > 1 {
      PieceStartCons(a, c - 1);
    } else {
      assert PieceStart(b, 1) == 0;
    }
  }

  /** Piece `c` lies right behind a `$(`; past the last piece is the end of the text. */
  ghost predicate PieceLies(text: string, pieces: seq<string>, c: nat)
    requires 1 <= c <= |pieces|
  {
    if c == |pieces| then PieceStart(pieces, c) == |text| else IsPiece(text, PieceStart(pieces, c), pieces[c])
  }

  /** Every piece after the first lies right behind a `$(`, in order, up to the end of the text. */
  lemma {:induction false} SplitPieces(text: string, c: nat)
    requires 1 <= c <= |Split(text, "$(")|
    ensures PieceLies(text, Split(text, "$("), c)
    decreases |text|
  {
    if text == "" {
    } else if "$(" <= text {
      if c == 1 {
        SplitLead(text[2..]);
        FirstPiece(text, Split(text[2..], "$(")[0]);
      } else {
        SplitPieces(text[2..], c - 1);
        PieceBehindOpen(text, Split(text[2..], "$("), c - 1);
      }
    } else {
      SplitPieces(text[1..], c);
      PieceBehindChar(text, Split(text[1..], "$("), c);
    }
  }

  lemma PieceBehindOpen(text: string, rest: seq<string>, c: nat)
    requires |text| >= 2 && 1 <= c <= |rest| && PieceLies(text[2..], rest, c)
    ensures PieceLies(text, [""] + rest, c + 1)
  {
    PieceStartCons(rest, c);
    if c < |rest| { PieceTail(text, 2, PieceStart(rest, c), rest[c]); }
  }

  lemma PieceBehindChar(text: string, rest: seq<string>, c: nat)
    requires text != "" && 1 <= c <= |rest| && PieceLies(text[1..], rest, c)
    ensures PieceLies(text, [[text[0]] + rest[0]] + rest[1..], c)
  {
    var pieces := [[text[0]] + rest[0]] + rest[1..];
    assert pieces[1..] == rest[1..];
    PieceStartShift(rest, pieces, 1, c);
    if c < |rest| {
      assert pieces[c] == rest[c];
      PieceTail(text, 1, PieceStart(rest, c), rest[c]);
    }
  }

  lemma FirstPiece(text: string, e: string)
    requires "$(" <= text && IsLead(text[2..], e)
    ensures IsPiece(text, 0, e)
  {
    assert text[2..2 + |e|] == text[2..][..|e|] == e;
    forall i | 0 < i < 2 + |e| ensures !OpensAt(text, i) {
      if i >= 2 { OpensTail(text, 2, i - 2); }
    }
    OpensTail(text, 2, |e|);
  }

  // ---- Header names ------------------------------------------------------------------

  const HEADER := "header."

  /** A byte allowed in a header field name (section 5.1 of RFC 9110). */
  predicate ValidHeaderChar(c: char) {
    'a' <= c <= 'z' || 'A' <= c <= 'Z' || '0' <= c <= '9' || c in "!#$%&'*+-.^_`|~"
  }

  function Recase(c: char, upper: bool): char {
    if upper && 'a' <= c <= 'z' then c - ('a' - 'A')
    else if !upper && 'A' <= c <= 'Z' then c + ('a' - 'A')
    else c
  }

  function RecaseAll(s: string, upper: bool): (r: string)
    ensures |r| == |s|
  {
    if s == "" then "" else [Recase(s[0], upper)] + RecaseAll(s[1..], s[0] == '-')
  }

  /** Canonical MIME header form; a name with any other byte in it is left as it is. */
  function CanonicalHeader(s: string): string {
    if forall i :: 0 <= i < |s| ==> ValidHeaderChar(s[i]) then RecaseAll(s, true) else s
  }

  /** The body that is evaluated: the header name of `header.NAME` in canonical form. */
  function Canonicalise(body: string): string {
    if HEADER <= body then HEADER + CanonicalHeader(body[|HEADER|..]) else body
  }

  predicate IsUpper(c: char) { 'A' <= c <= 'Z' }

  predicate IsLower(c: char) { 'a' <= c <= 'z' }

  /** The same letter, capital or not, or the same character. */
  predicate SameLetter(c: char, d: char) {
    || c == d
    || (IsUpper(c) && IsLower(d) && c as int + 32 == d as int)
    || (IsLower(c) && IsUpper(d) && c as int == d as int + 32)
  }

  lemma {:induction false} RecaseAt(s: string, upper: bool, i: nat)
    requires i < |s|
    ensures RecaseAll(s, upper)[i] == Recase(s[i], if i == 0 then upper else s[i - 1] == '-')
    decreases |s|
  {
    if i > 0 { RecaseAt(s[1..], s[0] == '-', i - 1); }
  }

  predicate HeaderName(s: string) {
    forall i :: 0 <= i < |s| ==> ValidHeaderChar(s[i])
  }

  /** A header name in canonical form is the same name with the letters at its start and behind a
      hyphen capital and all others small; a text that is no header name is left as it is. */
  lemma CanonicalLetters(s: string, i: nat)
    requires i < |s|
    ensures !HeaderName(s) ==> CanonicalHeader(s) == s
    ensures HeaderName(s) ==>
      && |CanonicalHeader(s)| == |s| && SameLetter(CanonicalHeader(s)[i], s[i])
      && (if i == 0 || s[i - 1] == '-' then !IsLower(CanonicalHeader(s)[i]) else !IsUpper(CanonicalHeader(s)[i]))
  {
    RecaseAt(s, true, i);
  }

  /** So two spellings of a header name are evaluated as one. */
  lemma SpellingsAgree(s: string, t: string)
    requires HeaderName(s) && HeaderName(t) && |s| == |t| && forall i :: 0 <= i < |s| ==> SameLetter(s[i], t[i])
    ensures CanonicalHeader(s) == CanonicalHeader(t)
  {
    var a, b := RecaseAll(s, true), RecaseAll(t, true);
    hide Recase, RecaseAll, SameLetter, ValidHeaderChar;
    forall i | 0 <= i < |s| ensures a[i] == b[i] {
      RecaseAt(s, true, i);
      RecaseAt(t, true, i);
      if i > 0 { RecaseSame(s[i - 1], t[i - 1], true); }
      RecaseSame(s[i], t[i], if i == 0 then true else s[i - 1] == '-');
    }
  }

  lemma RecaseSame(c: char, d: char, upper: bool)
    requires SameLetter(c, d)
    ensures Recase(c, upper) == Recase(d, upper) && (c == '-' <==> d == '-')
  {
  }

  /** Only the name behind `header.` is brought into that form. */
  lemma CanonicalBodies(body: string, name: string)
    ensures Canonicalise("header." + name) == "header." + CanonicalHeader(name)
    ensures !("header." <= body) ==> Canonicalise(body) == body
  {
    assert ("header." + name)[7..] == name;
  }

  // ---- The scanner -------------------------------------------------------------------

  /** The expression to evaluate for a substring the scanner found. */
  function ExpressionOf(original: string): string
    requires |original| >= 3
  {
    Wrap(Canonicalise(original[2..|original| - 1]))
  }

  ghost predicate EvaluatedFrom(results: seq<string>, originals: seq<string>) {
    && |results| == |originals|
    && forall k :: 0 <= k < |originals| ==> |originals[k]| >= 3 && results[k] == ExpressionOf(originals[k])
  }

  /** The inner loop: count brackets up to the first one that closes too much. */
  method ScanPiece(e: string) returns (i: nat)
    ensures i == FirstUnbalanced(e, 0, 0)
  {
    var open := 0;
    i := 0;
    while i < |e|
      invariant 0 <= i <= |e| && open >= 0
      invariant FirstUnbalanced(e, 0, 0) == FirstUnbalanced(e, i, open)
    {
      if e[i] == '(' {
        open := open + 1;
      } else if e[i] == ')' {
        open := open - 1;
        if open < 0 { break; }
      }
      i := i + 1;
    }
  }

  lemma {:induction false} ScanOver(text: string, c: nat)
    requires 1 <= c < |Split(text, "$(")|
    ensures var pieces := Split(text, "$("); var e := pieces[c]; var k := FirstUnbalanced(e, 0, 0);
      OriginalsFrom(text, PieceStart(pieces, c)) ==
      (if k < |e| then [Wrap(e[..k])] else []) + OriginalsFrom(text, PieceStart(pieces, c + 1))
  {
    hide Split, OriginalsFrom, FirstUnbalanced;
    SplitPieces(text, c);
    PieceOriginals(text, PieceStart(Split(text, "$("), c), Split(text, "$(")[c]);
  }

  lemma EvaluateMore(results: seq<string>, originals: seq<string>, raw: string)
    requires EvaluatedFrom(results, originals)
    ensures EvaluatedFrom(results + [Wrap(Canonicalise(raw))], originals + [Wrap(raw)])
  {
    assert Wrap(raw)[2..|Wrap(raw)| - 1] == raw;
  }

  /** Returns the expressions to evaluate and the substrings they come from. */
  method FindTektonExpressions(text: string) returns (results: seq<string>, originals: seq<string>)
    ensures originals == OriginalsFrom(text, 0)
    ensures EvaluatedFrom(results, originals)
  {
    results, originals := [], [];
    var pieces := Split(text, "$(");
    SplitLead(text);
    SkipClosed(text, 0, |pieces[0]|);
    assert EvaluatedFrom(results, originals);
    assert PieceStart(pieces, 1) == |pieces[0]|;
    hide Split, OriginalsFrom, FirstUnbalanced, PieceStart, EvaluatedFrom, Wrap, Canonicalise, PieceLies;
    var c := 1;
    while c < |pieces|
      invariant 1 <= c <= |pieces|
      invariant OriginalsFrom(text, 0) == originals + OriginalsFrom(text, PieceStart(pieces, c))
      invariant EvaluatedFrom(results, originals)
    {
      var e := pieces[c];
      ScanOver(text, c);
      var i := ScanPiece(e);
      if i < |e| {
        var raw := e[..i];
        EvaluateMore(results, originals, raw);
        originals := originals + [Wrap(raw)];
        results := results + [Wrap(Canonicalise(raw))];
      }
      c := c + 1;
    }
    LastPiece(text);
    NoneFromEnd(text);
  }

  lemma LastPiece(text: string)
    ensures PieceStart(Split(text, "$("), |Split(text, "$(")|) == |text|
  {
    hide Split, PieceStart;
    SplitPieces(text, |Split(text, "$(")|);
  }

  lemma NoneFromEnd(text: string)
    ensures OriginalsFrom(text, |text|) == []
  {
  }

  // ---- The admission check on a binding value ----------------------------------------

  /** Every `$(` that another `$(` follows is the start of a complete expression. */
  ghost predicate Validated(text: string) {
    forall p, p' :: 0 <= p < p' && OpensAt(text, p) && OpensAt(text, p') ==> exists q :: IsExprAt(text, p, q)
  }

  /** Accepts exactly the validated values: the last `$(` is never looked at. */
  method ValidateParamValue(text: string) returns (ok: bool)
    ensures ok <==> Validated(text)
  {
    var pieces := Split(text, "$(");
    SplitLead(text);
    var terminated := true;
    var c := 1;
    while c < |pieces|
      invariant 1 <= c <= |pieces|
      invariant terminated <==> (c == 1 || Terminated(pieces[c - 1]))
      invariant forall d :: 1 <= d < c - 1 ==> Terminated(pieces[d])
    {
      if !terminated {
        RejectedAt(text, c - 1);
        return false;
      }
      var e := pieces[c];
      terminated := false;
      var i := ScanPiece(e);
      if i < |e| { terminated := true; }
      c := c + 1;
    }
    AcceptedAll(text);
    return true;
  }

  predicate Terminated(e: string) {
    FirstUnbalanced(e, 0, 0) < |e|
  }

  lemma RejectedAt(text: string, c: nat)
    requires 1 <= c < |Split(text, "$(")| - 1 && !Terminated(Split(text, "$(")[c])
    ensures !Validated(text)
  {
    var pieces := Split(text, "$(");
    SplitPieces(text, c);
    SplitPieces(text, c + 1);
    PieceScan(text, PieceStart(pieces, c), pieces[c]);
    assert PieceStart(pieces, c) < PieceStart(pieces, c + 1);
  }

  /** Every `$(` of the text stands in front of a piece. */
  lemma {:induction false} OpenIsPiece(text: string, c: nat, p: nat) returns (d: nat)
    requires var pieces := Split(text, "$(");
      1 <= c <= |pieces| && PieceStart(pieces, c) <= p && OpensAt(text, p)
    ensures c <= d < |Split(text, "$(")| && PieceStart(Split(text, "$("), d) == p
    decreases |Split(text, "$(")| - c
  {
    var pieces := Split(text, "$(");
    SplitPieces(text, c);
    if PieceStart(pieces, c) == p {
      d := c;
    } else {
      d := OpenIsPiece(text, c + 1, p);
    }
  }

  lemma AcceptedAll(text: string)
    requires var pieces := Split(text, "$(");
      forall d :: 1 <= d < |pieces| - 1 ==> Terminated(pieces[d])
    ensures Validated(text)
  {
    var pieces := Split(text, "$(");
    SplitLead(text);
    forall p, p' | 0 <= p < p' && OpensAt(text, p) && OpensAt(text, p')
      ensures exists q :: IsExprAt(text, p, q)
    {
      var d := OpenIsPiece(text, 1, p);
      SplitPieces(text, d);
      var d' := OpenIsPiece(text, d, p');
      PieceScan(text, p, pieces[d]);
      assert d < d';
    }
  }

  // ---- What the scanner's answer means -----------------------------------------------

  /** The originals are exactly the expressions of the text. */
  lemma {:induction false} OriginalsExact(text: string, from: nat, o: string)
    ensures o in OriginalsFrom(text, from) <==>
      exists p, q :: from <= p && IsExprAt(text, p, q) && text[p..q + 1] == o
    decreases |text| - from
  {
    if from < |text| {
      OriginalsExact(text, from + 1, o);
      if exists q :: IsExprAt(text, from, q) {
        var q :| IsExprAt(text, from, q);
        FirstOriginal(text, from, q);
        ExprInText(text, from, q);
        hide OriginalsFrom, IsExprAt;
        forall q' | IsExprAt(text, from, q') ensures q' == q { ExprUnique(text, from, q, q'); }
      }
    } else {
      forall p, q | from <= p ensures !IsExprAt(text, p, q) { }
    }
  }

  lemma ExprInText(text: string, p: int, q: int)
    requires IsExprAt(text, p, q)
    ensures 0 <= p < q < |text|
  {
  }

  lemma FirstOriginal(text: string, p: nat, q: int)
    requires IsExprAt(text, p, q)
    ensures OriginalsFrom(text, p) == [text[p..q + 1]] + OriginalsFrom(text, p + 1)
  {
    hide IsBody;
    forall q' | IsExprAt(text, p, q') ensures q' == q { ExprUnique(text, p, q, q'); }
  }

  /** Every original wraps a body. */
  lemma OriginalsAreWraps(text: string, o: string) returns (b: string)
    requires o in OriginalsFrom(text, 0)
    ensures IsBody(b) && o == Wrap(b)
  {
    OriginalsExact(text, 0, o);
    hide OriginalsFrom, IsBody;
    var p, q :| 0 <= p && IsExprAt(text, p, q) && text[p..q + 1] == o;
    b := text[p + 2..q];
    ExprWraps(text, p, q);
  }

  lemma ExprWraps(text: string, p: int, q: int)
    requires IsExprAt(text, p, q)
    ensures text[p..q + 1] == Wrap(text[p + 2..q])
  {
    hide IsBody;
    var e, w := text[p..q + 1], Wrap(text[p + 2..q]);
    forall i | 0 <= i < |e| ensures e[i] == w[i] {
      assert e[i] == text[p + i];
      if 2 <= i < |e| - 1 { assert w[i] == text[p + 2..q][i - 2]; }
    }
  }

  /** Originals are tokens, and any two are equal or prefix-free. */
  lemma OriginalsFit(text: string)
    ensures forall o :: o in OriginalsFrom(text, 0) ==> IsToken(o)
    ensures forall o, o' :: o in OriginalsFrom(text, 0) && o' in OriginalsFrom(text, 0) ==> Compatible(o, o')
  {
    forall o | o in OriginalsFrom(text, 0) ensures IsToken(o) {
      var b := OriginalsAreWraps(text, o);
      WrapIsToken(b);
    }
    forall o, o' | o in OriginalsFrom(text, 0) && o' in OriginalsFrom(text, 0) ensures Compatible(o, o') {
      var b := OriginalsAreWraps(text, o);
      var b' := OriginalsAreWraps(text, o');
      if Comparable(o, o') { BodiesPrefixFree(b, b'); }
    }
  }

  /** How many `$(` there are from `p` on. */
  function OpenCount(text: string, p: nat): nat
    decreases |text| - p
  {
    if p >= |text| then 0 else (if OpensAt(text, p) then 1 else 0) + OpenCount(text, p + 1)
  }

  /** An accepted value yields one expression per `$(`, or one fewer when the last is unterminated. */
  lemma {:induction false} ValidatedCount(text: string, from: nat)
    requires Validated(text)
    ensures |OriginalsFrom(text, from)| <= OpenCount(text, from) <= |OriginalsFrom(text, from)| + 1
    ensures OpenCount(text, from) == |OriginalsFrom(text, from)| <==>
      forall p :: p >= from && OpensAt(text, p) ==> exists q :: IsExprAt(text, p, q)
    decreases |text| - from
  {
    if from < |text| {
      ValidatedCount(text, from + 1);
      if OpensAt(text, from) && !exists q :: IsExprAt(text, from, q) {
        assert forall p :: p >= from + 1 ==> !OpensAt(text, p);
        NoOpensCount(text, from + 1);
      }
    }
  }

  lemma {:induction false} NoOpensCount(text: string, from: nat)
    requires forall p :: p >= from ==> !OpensAt(text, p)
    ensures OpenCount(text, from) == 0
    decreases |text| - from
  {
    if from < |text| { NoOpensCount(text, from + 1); }
  }

  /** No plain character in front of an expression is a `$`. */
  ghost predicate NoDollarBeforeExpr(text: string) {
    forall p, q :: p > 0 && IsExprAt(text, p, q) ==> text[p - 1] != '$'
  }

  ghost predicate IsExpression(t: string) {
    exists b :: IsBody(b) && t == Wrap(b)
  }

  /** For accepted values that is all a text needs to be safe. */
  lemma ValidatedIsSafe(text: string, tokens: set<string>)
    requires Validated(text) && NoDollarBeforeExpr(text)
    requires forall t :: t in tokens ==> IsExpression(t)
    ensures SafeText(text, tokens)
  {
    forall m, i, j, t | m in tokens && 0 <= i < j <= |text| && t in tokens && t <= text[j..]
      ensures !(text[i..j] < m)
    {
      var b :| IsBody(b) && t == Wrap(b);
      var c :| IsBody(c) && m == Wrap(c);
      ExprOccurs(text, j, b);
      if j > i + 1 { NoEarlierOpen(text, i, j, c); }
    }
  }

  /** An occurrence of a wrapped body is an expression of the text. */
  lemma ExprOccurs(text: string, j: nat, b: string)
    requires j <= |text| && IsBody(b) && Wrap(b) <= text[j..]
    ensures IsExprAt(text, j, j + 2 + |b|)
  {
    var t := Wrap(b);
    assert text[j..][..|t|] == t;
    assert text[j + 2..j + 2 + |b|] == t[2..2 + |b|] == b;
  }

  lemma NoEarlierOpen(text: string, i: nat, j: nat, c: string)
    requires Validated(text) && i + 2 <= j <= |text| && OpensAt(text, j) && IsBody(c)
    ensures !(text[i..j] < Wrap(c))
  {
    var run := text[i..j];
    assert run[0] == text[i] && run[1] == text[i + 1] && Wrap(c)[0] == '$' && Wrap(c)[1] == '(';
    if OpensAt(text, i) {
      var q :| IsExprAt(text, i, q);
      ClosedBefore(text, i, q, j);
      var b := text[i + 2..q];
      ExprWraps(text, i, q);
      assert run[..q + 1 - i] == Wrap(b) && Wrap(b) <= run;
      hide Validated, Depth, IsBody, Wrap;
      if run < Wrap(c) {
        PrefixOfPrefix(Wrap(b), run, Wrap(c));
        BodiesPrefixFree(b, c);
      }
    }
  }

  lemma PrefixOfPrefix(a: string, b: string, c: string)
    requires a <= b && b <= c
    ensures a <= c
  {
  }

  /** An expression is over before the next `$(`. */
  lemma ClosedBefore(text: string, i: nat, q: int, j: nat)
    requires IsExprAt(text, i, q) && i < j && OpensAt(text, j)
    ensures q < j
  {
    if j < q {
      assert OpensAt(text[i + 2..q], j - i - 2);
    }
  }

  /** A value without `$(` that does not end in `$` is safe for every token. */
  lemma CleanIsSafe(v: string, m: string)
    requires IsToken(m)
    requires forall i :: 0 <= i < |v| ==> !OpensAt(v, i)
    requires v != "" ==> v[|v| - 1] != '$'
    ensures SafeValue(v, m)
  {
    forall i | 0 <= i < |v| ensures !Comparable(v[i..], m) {
      assert !OpensAt(v, i);
      if |v[i..]| >= 2 {
        assert v[i..][0] == v[i] && v[i..][1] == v[i + 1];
      } else {
        assert v[i..][0] == v[|v| - 1];
      }
    }
  }
}
