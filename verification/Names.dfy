/** Trigger ids and JSONPath expressions: printed, parsed, normalised. */
module Names {
  import opened Wrappers
  import opened Scanner

  // ---- Trigger ids -------------------------------------------------------------------

  function TriggerID(namespace: string, kind: string, name: string): string {
    "namespaces/" + namespace + "/" + kind + "/" + name
  }

  function ParseTriggerID(id: string): (string, string) {
    var parts := Split(id, "/");
    if |parts| != 4 then ("", "") else (parts[1], parts[3])
  }

  lemma {:induction false} SplitJoined(a: string, b: string)
    ensures Split(a + "/" + b, "/") == Split(a, "/") + Split(b, "/")
    decreases |a|
  {
    hide Split;
    var s := a + "/" + b;
    SplitCons(s);
    if a == "" {
      SplitEmpty();
      assert s[1..] == b;
    } else {
      SplitJoined(a[1..], b);
      assert s[0] == a[0] && s[1..] == a[1..] + "/" + b;
      SplitCons(a);
      ConsOnto(a[0], Split(a[1..], "/"), Split(b, "/"));
    }
  }

  lemma ConsOnto(c: char, x: seq<string>, y: seq<string>)
    requires x != []
    ensures [""] + (x + y) == [""] + x + y
    ensures [[c] + (x + y)[0]] + (x + y)[1..] == [[c] + x[0]] + x[1..] + y
  {
    assert (x + y)[0] == x[0] && (x + y)[1..] == x[1..] + y;
  }

  lemma SplitEmpty()
    ensures Split("", "/") == [""]
  {
  }

  lemma SplitCons(s: string)
    requires s != ""
    ensures var rest := Split(s[1..], "/");
      Split(s, "/") == if s[0] == '/' then [""] + rest else [[s[0]] + rest[0]] + rest[1..]
  {
    assert "/" <= s <==> s[0] == '/';
  }

  lemma {:induction false} SplitPlain(a: string)
    ensures '/' !in a ==> Split(a, "/") == [a]
    ensures '/' in a ==> |Split(a, "/")| > 1
    decreases |a|
  {
    if a != "" {
      SplitPlain(a[1..]);
      assert a == [a[0]] + a[1..];
      assert "/" <= a <==> a[0] == '/';
    }
  }

  lemma {:induction false} SplitID(namespace: string, kind: string, name: string)
    requires '/' !in kind
    ensures Split(TriggerID(namespace, kind, name), "/") ==
      ["namespaces"] + Split(namespace, "/") + [kind] + Split(name, "/")
  {
    hide Split;
    var tail := kind + "/" + name;
    var rest := namespace + "/" + tail;
    assert TriggerID(namespace, kind, name) == "namespaces" + "/" + rest;
    SplitJoined("namespaces", rest);
    SplitJoined(namespace, tail);
    SplitJoined(kind, name);
    SplitPlain("namespaces");
    SplitPlain(kind);
  }

  /** Parsing a printed id of a trigger or a trigger group gives back its namespace and name when
      neither holds a slash, and two empty strings for every other pair. */
  lemma {:induction false} TriggerIDRoundTrip(namespace: string, kind: string, name: string)
    requires kind == "triggers" || kind == "triggerGroups"
    ensures ParseTriggerID(TriggerID(namespace, kind, name)) ==
      if '/' !in namespace && '/' !in name then (namespace, name) else ("", "")
  {
    hide Split, TriggerID;
    SplitID(namespace, kind, name);
    SplitPlain(namespace);
    SplitPlain(name);
  }

  // ---- Expressions -------------------------------------------------------------------

  /** Somewhere a `$`, then at least one character that is no closing bracket, then one that is. */
  ghost predicate IsTektonExpr(s: string) {
    exists i, j :: 0 <= i && i + 2 <= j < |s| && s[i] == '$' && s[j] == ')' && ')' !in s[i + 1..j]
  }

  /** The expression without `$(` in front and one `)` behind. */
  function Unwrapped(s: string): string {
    var a := if "$(" <= s then s[2..] else s;
    if a != "" && a[|a| - 1] == ')' then a[..|a| - 1] else a
  }

  predicate NoBraces(s: string) {
    '{' !in s && '}' !in s
  }

  predicate InBraces(s: string) {
    |s| >= 3 && s[0] == '{' && s[|s| - 1] == '}' && NoBraces(s[1..|s| - 1])
  }

  /** One leading dot, if something follows it, is dropped. */
  function Undotted(s: string): string {
    if |s| > 1 && s[0] == '.' then s[1..] else s
  }

  function RelaxedJSONPath(s: string): Result<string> {
    if s == "" then Ok("")
    else if InBraces(s) then Ok("{." + Undotted(s[1..|s| - 1]) + "}")
    else if NoBraces(s) then Ok("{." + Undotted(s) + "}")
    else Err("unexpected path string")
  }

  lemma {:induction false} FirstClosing(s: string, k: nat) returns (j: nat)
    requires k < |s| && s[|s| - 1] == ')'
    ensures k <= j < |s| && s[j] == ')' && ')' !in s[k..j]
    decreases |s| - k
  {
    if s[k] == ')' {
      j := k;
    } else {
      j := FirstClosing(s, k + 1);
      assert s[k..j] == [s[k]] + s[k + 1..j];
    }
  }

  /** Every expression the scanner hands on, the empty one and canonical headers included, passes
      the shape test and unwraps to exactly its body. */
  lemma ScannedExpressions(text: string, results: seq<string>, k: nat)
    requires EvaluatedFrom(results, OriginalsFrom(text, 0)) && k < |results|
    ensures IsTektonExpr(results[k])
    ensures Unwrapped(results[k]) == Canonicalise(OriginalsFrom(text, 0)[k][2..|OriginalsFrom(text, 0)[k]| - 1])
  {
    hide OriginalsFrom, IsTektonExpr, Unwrapped, Canonicalise, Wrap;
    var o := OriginalsFrom(text, 0)[k];
    assert results[k] == ExpressionOf(o);
    WrappedExpression(Canonicalise(o[2..|o| - 1]));
  }

  lemma WrappedExpression(body: string)
    ensures IsTektonExpr(Wrap(body)) && Unwrapped(Wrap(body)) == body
  {
    var s := Wrap(body);
    var j := FirstClosing(s, 1);
    assert s[0] == '$' && 0 + 2 <= j && ')' !in s[0 + 1..j];
    assert s[2..] == body + ")";
    assert (body + ")")[..|body|] == body;
  }

  lemma Braced(m: string)
    requires m != "" && NoBraces(m)
    ensures RelaxedJSONPath("{" + m + "}") == Ok("{." + Undotted(m) + "}")
  {
    var s := "{" + m + "}";
    assert s[1..|s| - 1] == m;
  }

  lemma Unbraced(m: string)
    requires m != "" && NoBraces(m)
    ensures RelaxedJSONPath(m) == Ok("{." + Undotted(m) + "}")
  {
    assert m[0] in m;
  }

  lemma Dotted(n: string)
    requires n != "" && NoBraces(n)
    ensures NoBraces("." + n) && Undotted("." + n) == n && "{." + n + "}" == "{" + ("." + n) + "}"
  {
  }

  /** All four spellings of a path come out the same, and the result is left as it is. */
  lemma FourSpellings(n: string)
    requires n != "" && NoBraces(n) && n[0] != '.'
    ensures RelaxedJSONPath(n) == RelaxedJSONPath("." + n) == RelaxedJSONPath("{" + n + "}") ==
            RelaxedJSONPath("{." + n + "}") == Ok("{." + n + "}")
  {
    assert Undotted(n) == n;
    Dotted(n);
    hide RelaxedJSONPath, NoBraces, Undotted;
    Unbraced(n);
    Braced(n);
    Unbraced("." + n);
    Braced("." + n);
  }

  /** Normalising twice is normalising once. */
  lemma RelaxedIdempotent(s: string)
    requires RelaxedJSONPath(s).Ok?
    ensures RelaxedJSONPath(RelaxedJSONPath(s).value) == RelaxedJSONPath(s)
  {
    if s != "" {
      var m := if InBraces(s) then s[1..|s| - 1] else s;
      var f := Undotted(m);
      assert RelaxedJSONPath(s) == Ok("{." + f + "}");
      assert m != "" && NoBraces(m) && f != "" && NoBraces(f);
      Dotted(f);
      hide RelaxedJSONPath, NoBraces, Undotted, InBraces;
      Braced("." + f);
    }
  }

  /** Rejected are exactly the non-empty inputs that are neither a path nor a path in braces. */
  lemma RelaxedRejects(s: string)
    ensures RelaxedJSONPath(s).Err? <==>
      s != "" && forall n :: n != "" && NoBraces(n) ==> s != n && s != "{" + n + "}"
  {
  }
}
