/** The status conditions of an EventListener: a list with one entry per type, edited in place by
    the methods of the status. */
module Conditions {
  import opened Wrappers

  datatype Truth = Yes | No | Unknown

  datatype Condition = Condition(ctype: string, status: Truth, severity: string, reason: string, message: string,
                                 since: int)

  const SERVICE := "Service"
  const DEPLOYMENT := "Deployment"
  const READY := "Ready"
  const PROGRESSING := "Progressing"
  const AVAILABLE := "Available"
  const REPLICA_FAILURE := "ReplicaFailure"

  // ---- One condition per type --------------------------------------------------------

  predicate Unique(cs: seq<Condition>) {
    forall i, j :: 0 <= i < |cs| && 0 <= j < |cs| && cs[i].ctype == cs[j].ctype ==> i == j
  }

  function Get(cs: seq<Condition>, t: string): (c: Option<Condition>)
    ensures c.Some? ==> c.value in cs && c.value.ctype == t
    ensures c.None? ==> forall i :: 0 <= i < |cs| ==> cs[i].ctype != t
  {
    if cs == [] then None else if cs[0].ctype == t then Some(cs[0]) else Get(cs[1..], t)
  }

  function StatusOf(cs: seq<Condition>, t: string): Option<Truth> {
    var c := Get(cs, t);
    if c.Some? then Some(c.value.status) else None
  }

  function Others(cs: seq<Condition>, t: string): (r: seq<Condition>)
    ensures forall c :: c in r <==> c in cs && c.ctype != t
  {
    if cs == [] then []
    else
      var rest := Others(cs[1..], t);
      assert cs == [cs[0]] + cs[1..];
      if cs[0].ctype == t then rest else [cs[0]] + rest
  }

  /** Lexicographic order of the type names. */
  predicate Before(a: string, b: string) {
    b != "" && (a == "" || a[0] < b[0] || (a[0] == b[0] && Before(a[1..], b[1..])))
  }

  function Insert(c: Condition, cs: seq<Condition>): (r: seq<Condition>)
    ensures forall x :: x in r <==> x == c || x in cs
  {
    if cs == [] || !Before(cs[0].ctype, c.ctype) then [c] + cs
    else
      assert cs == [cs[0]] + cs[1..];
      [cs[0]] + Insert(c, cs[1..])
  }

  function Sort(cs: seq<Condition>): (r: seq<Condition>)
    ensures forall x :: x in r <==> x in cs
  {
    if cs == [] then []
    else
      assert cs == [cs[0]] + cs[1..];
      Insert(cs[0], Sort(cs[1..]))
  }

  /** Set or replace the condition of one type; the list is left alone, time stamp included, if the
      condition is the same as before. */
  function Set(cs: seq<Condition>, c: Condition, now: int): seq<Condition> {
    if exists i :: 0 <= i < |cs| && SameBut(cs[i], c) then cs
    else Sort(Others(cs, c.ctype) + [c.(since := now)])
  }

  /** The same condition but for the time stamp. */
  predicate SameBut(x: Condition, c: Condition) {
    x.ctype == c.ctype && x == c.(since := x.since)
  }

  lemma OtherType(x: Condition, c: Condition)
    requires x.ctype != c.ctype
    ensures !SameBut(x, c)
  {
  }

  lemma SetSame(cs: seq<Condition>, c: Condition, now: int, i: nat)
    requires i < |cs| && SameBut(cs[i], c)
    ensures Set(cs, c, now) == cs
  {
  }

  lemma SetNew(cs: seq<Condition>, c: Condition, now: int)
    requires forall j :: 0 <= j < |cs| ==> !SameBut(cs[j], c)
    ensures Set(cs, c, now) == Sort(Others(cs, c.ctype) + [c.(since := now)])
  {
  }

  lemma {:induction false} OthersUnique(cs: seq<Condition>, t: string)
    requires Unique(cs)
    ensures Unique(Others(cs, t))
    decreases |cs|
  {
    if cs != [] {
      OthersUnique(cs[1..], t);
      ConsUnique(cs[0], Others(cs[1..], t), cs);
    }
  }

  lemma ConsUnique(c: Condition, rest: seq<Condition>, cs: seq<Condition>)
    requires cs != [] && c == cs[0] && Unique(cs) && Unique(rest) && forall x :: x in rest ==> x in cs[1..]
    ensures Unique([c] + rest)
  {
    forall i | 0 <= i < |rest| ensures rest[i].ctype != c.ctype {
      assert rest[i] in rest;
      var j :| 0 <= j < |cs[1..]| && cs[1..][j] == rest[i];
      assert cs[j + 1] == rest[i];
    }
  }

  lemma {:induction false} InsertUnique(c: Condition, cs: seq<Condition>)
    requires Unique(cs) && forall x :: x in cs ==> x.ctype != c.ctype
    ensures Unique(Insert(c, cs))
    decreases |cs|
  {
    if cs == [] || !Before(cs[0].ctype, c.ctype) {
      forall i | 0 <= i < |cs| ensures cs[i].ctype != c.ctype { assert cs[i] in cs; }
    } else {
      InsertUnique(c, cs[1..]);
      var r := Insert(c, cs[1..]);
      forall i | 0 <= i < |r| ensures r[i].ctype != cs[0].ctype {
        assert r[i] in r;
        if r[i] != c {
          var j :| 0 <= j < |cs[1..]| && cs[1..][j] == r[i];
          assert cs[j + 1] == r[i];
        } else {
          assert cs[0] in cs;
        }
      }
    }
  }

  lemma {:induction false} SortUnique(cs: seq<Condition>)
    requires Unique(cs)
    ensures Unique(Sort(cs))
    decreases |cs|
  {
    if cs != [] {
      SortUnique(cs[1..]);
      forall x | x in Sort(cs[1..]) ensures x.ctype != cs[0].ctype {
        var j :| 0 <= j < |cs[1..]| && cs[1..][j] == x;
        assert cs[j + 1] == x;
      }
      InsertUnique(cs[0], Sort(cs[1..]));
    }
  }

  /** In a list with unique types a lookup is membership. */
  lemma GetIsMember(cs: seq<Condition>, c: Condition)
    requires Unique(cs) && c in cs
    ensures Get(cs, c.ctype) == Some(c)
  {
    var i :| 0 <= i < |cs| && cs[i] == c;
    var g := Get(cs, c.ctype);
    var j :| 0 <= j < |cs| && cs[j] == g.value;
  }

  /** Setting a condition keeps the types unique, decides the status of its own type and leaves
      every other type as it was. */
  lemma SetMeaning(cs: seq<Condition>, c: Condition, now: int)
    requires Unique(cs)
    ensures Unique(Set(cs, c, now))
    ensures StatusOf(Set(cs, c, now), c.ctype) == Some(c.status)
    ensures forall t :: t != c.ctype ==> Get(Set(cs, c, now), t) == Get(cs, t)
  {
    if exists i :: 0 <= i < |cs| && SameBut(cs[i], c) {
      var i :| 0 <= i < |cs| && SameBut(cs[i], c);
      GetIsMember(cs, cs[i]);
    } else {
      SetReplaces(cs, c.(since := now));
    }
  }

  lemma SetReplaces(cs: seq<Condition>, c: Condition)
    requires Unique(cs)
    ensures var r := Sort(Others(cs, c.ctype) + [c]);
      && Unique(r) && Get(r, c.ctype) == Some(c)
      && forall t :: t != c.ctype ==> Get(r, t) == Get(cs, t)
  {
    var rest := Others(cs, c.ctype);
    var all := rest + [c];
    OthersUnique(cs, c.ctype);
    forall i | 0 <= i < |rest| ensures all[i].ctype != c.ctype { assert all[i] in rest; }
    SortUnique(all);
    var r := Sort(all);
    assert c in all by { assert all[|rest|] == c; }
    GetIsMember(r, c);
    forall t | t != c.ctype ensures Get(r, t) == Get(cs, t) { SameLookup(cs, r, rest, c, t); }
  }

  lemma SameLookup(cs: seq<Condition>, r: seq<Condition>, rest: seq<Condition>, c: Condition, t: string)
    requires Unique(cs) && Unique(r) && t != c.ctype
    requires forall x :: x in r <==> x in rest + [c]
    requires forall x :: x in rest <==> x in cs && x.ctype != c.ctype
    ensures Get(r, t) == Get(cs, t)
  {
    var g := Get(cs, t);
    if g.Some? {
      assert g.value in rest && g.value in rest + [c];
      GetIsMember(r, g.value);
    } else {
      forall x | x in r ensures x.ctype != t { }
    }
  }

  // ---- The methods of the status, on lists -------------------------------------------

  function Bare(t: string, status: Truth, message: string): Condition {
    Condition(t, status, "", "", message, 0)
  }

  function Initialized(cs: seq<Condition>, now: int): seq<Condition> {
    Set(Set(Set(cs, Bare(SERVICE, No, ""), now), Bare(DEPLOYMENT, No, ""), now), Bare(READY, No, ""), now)
  }

  function WithExists(cs: seq<Condition>, t: string, error: Option<string>, now: int): seq<Condition> {
    Set(cs, if error.Some? then Bare(t, No, error.value) else Bare(t, Yes, t + " exists"), now)
  }

  function SetAll(cs: seq<Condition>, reported: seq<Condition>, now: int): seq<Condition> {
    if reported == [] then cs
    else
      var n := |reported| - 1;
      Set(SetAll(cs, reported[..n], now), reported[n].(severity := ""), now)
  }

  function FirstOfType(cs: seq<Condition>, t: string): (i: nat)
    ensures i <= |cs|
    ensures i < |cs| ==> cs[i].ctype == t
    ensures forall j :: 0 <= j < i ==> cs[j].ctype != t
  {
    if cs == [] || cs[0].ctype == t then 0 else 1 + FirstOfType(cs[1..], t)
  }

  function WithoutReplicaFailure(cs: seq<Condition>): seq<Condition> {
    var i := FirstOfType(cs, REPLICA_FAILURE);
    if i < |cs| then cs[..i] + cs[i + 1..] else cs
  }

  function WithDeployment(cs: seq<Condition>, reported: seq<Condition>, now: int): seq<Condition> {
    SetAll(WithoutReplicaFailure(cs), reported, now)
  }

  const GATES := [SERVICE, DEPLOYMENT, PROGRESSING, AVAILABLE]

  /** The first gate from `i` on that is present and not true. */
  function ClosedGate(cs: seq<Condition>, i: nat): (g: Option<Condition>)
    requires i <= 4
    ensures g.None? <==> forall k :: i <= k < 4 ==> StatusOf(cs, GATES[k]) in {None, Some(Yes)}
    decreases 4 - i
  {
    if i == 4 then None
    else
      var c := Get(cs, GATES[i]);
      if c.Some? && c.value.status != Yes then c else ClosedGate(cs, i + 1)
  }

  function TruthText(t: Truth): string {
    match t
    case Yes => "True"
    case No => "False"
    case Unknown => "Unknown"
  }

  /** The text of a not-ready message, from the gate that is closed. */
  function GateMessage(c: Condition): string {
    "Condition " + c.ctype + " has status: " + TruthText(c.status) + " with message: " + c.message
  }

  function WithReady(cs: seq<Condition>, now: int): seq<Condition> {
    var g := ClosedGate(cs, 0);
    Set(cs, if g.Some? then Bare(READY, No, GateMessage(g.value)) else Bare(READY, Yes, "EventListener is ready"), now)
  }

  function WithDynamic(cs: seq<Condition>, reported: seq<Condition>, now: int): seq<Condition> {
    Set(SetAll(cs, reported, now), Bare(READY, Yes, "EventListener is ready"), now)
  }

  class EventListenerStatus {
    var conditions: seq<Condition>

    constructor (conditions: seq<Condition>)
      ensures this.conditions == conditions
    {
      this.conditions := conditions;
    }

    method SetCondition(c: Condition, now: int)
      modifies this
      ensures conditions == old(Set(conditions, c, now))
    {
      var kept: seq<Condition> := [];
      assert Others(conditions[..0], c.ctype) == [];
      hide Set, Others, Sort, SameBut;
      var i := 0;
      while i < |conditions|
        invariant 0 <= i <= |conditions| && conditions == old(conditions)
        invariant kept == Others(conditions[..i], c.ctype)
        invariant forall j :: 0 <= j < i ==> !SameBut(conditions[j], c)
      {
        OthersSnoc(conditions[..i], conditions[i], c.ctype);
        assert conditions[..i + 1] == conditions[..i] + [conditions[i]];
        if conditions[i].ctype != c.ctype {
          OtherType(conditions[i], c);
          kept := kept + [conditions[i]];
        } else if SameBut(conditions[i], c) {
          SetSame(conditions, c, now, i);
          return;
        }
        i := i + 1;
      }
      assert conditions[..i] == conditions;
      SetNew(conditions, c, now);
      conditions := Sort(kept + [c.(since := now)]);
    }

    method InitializeConditions(now: int)
      modifies this
      ensures conditions == old(Initialized(conditions, now))
    {
      SetCondition(Bare(SERVICE, No, ""), now);
      SetCondition(Bare(DEPLOYMENT, No, ""), now);
      SetCondition(Bare(READY, No, ""), now);
    }

    method SetExistsCondition(t: string, error: Option<string>, now: int)
      modifies this
      ensures conditions == old(WithExists(conditions, t, error, now))
    {
      if error.Some? {
        SetCondition(Bare(t, No, error.value), now);
      } else {
        SetCondition(Bare(t, Yes, t + " exists"), now);
      }
    }

    method SetReadyCondition(now: int)
      modifies this
      ensures conditions == old(WithReady(conditions, now))
    {
      var i := 0;
      while i < 4
        invariant 0 <= i <= 4 && conditions == old(conditions) && ClosedGate(conditions, 0) == ClosedGate(conditions, i)
      {
        var c := Get(conditions, GATES[i]);
        if c.Some? && c.value.status != Yes {
          SetCondition(Bare(READY, No, GateMessage(c.value)), now);
          return;
        }
        i := i + 1;
      }
      SetCondition(Bare(READY, Yes, "EventListener is ready"), now);
    }

    method CopyConditions(reported: seq<Condition>, now: int)
      modifies this
      ensures conditions == old(SetAll(conditions, reported, now))
    {
      var i := 0;
      while i < |reported|
        invariant 0 <= i <= |reported| && conditions == SetAll(old(conditions), reported[..i], now)
      {
        assert reported[..i + 1][..i] == reported[..i];
        SetCondition(reported[i].(severity := ""), now);
        i := i + 1;
      }
      assert reported[..i] == reported;
    }

    method SetDeploymentConditions(reported: seq<Condition>, now: int)
      modifies this
      ensures conditions == old(WithDeployment(conditions, reported, now))
    {
      var i := FirstOfType(conditions, REPLICA_FAILURE);
      assert WithoutReplicaFailure(conditions) ==
        if i < |conditions| then conditions[..i] + conditions[i + 1..] else conditions;
      hide SetAll, FirstOfType, WithoutReplicaFailure;
      if i < |conditions| {
        conditions := conditions[..i] + conditions[i + 1..];
      }
      assert conditions == old(WithoutReplicaFailure(conditions));
      CopyConditions(reported, now);
    }

    method SetConditionsForDynamicObjects(reported: seq<Condition>, now: int)
      modifies this
      ensures conditions == old(WithDynamic(conditions, reported, now))
    {
      CopyConditions(reported, now);
      SetCondition(Bare(READY, Yes, "EventListener is ready"), now);
    }
  }

  lemma {:induction false} OthersSnoc(cs: seq<Condition>, c: Condition, t: string)
    ensures Others(cs + [c], t) == Others(cs, t) + (if c.ctype != t then [c] else [])
    decreases |cs|
  {
    if cs == [] {
      assert (cs + [c])[1..] == [];
    } else {
      assert (cs + [c])[0] == cs[0] && (cs + [c])[1..] == cs[1..] + [c];
      OthersSnoc(cs[1..], c, t);
    }
  }

  // ---- The list is sorted ------------------------------------------------------------

  /** The order is lexicographic. */
  lemma {:induction false} BeforeIsLexicographic(p: string, c: char, x: string, d: char, y: string)
    ensures Before(p, p + [c] + x) && !Before(p + [c] + x, p)
    ensures c != d ==> (Before(p + [c] + x, p + [d] + y) <==> c < d)
    decreases |p|
  {
    var a, b := p + [c] + x, p + [d] + y;
    if p == "" {
      assert a[0] == c && b[0] == d;
    } else {
      BeforeIsLexicographic(p[1..], c, x, d, y);
      assert a[0] == p[0] && b[0] == p[0] && a[1..] == p[1..] + [c] + x && b[1..] == p[1..] + [d] + y;
    }
  }

  lemma {:induction false} BeforeCompares(a: string, b: string)
    ensures !(Before(a, b) && Before(b, a))
    ensures !Before(a, b) && !Before(b, a) ==> a == b
    decreases |a|
  {
    if a != "" && b != "" {
      BeforeCompares(a[1..], b[1..]);
      assert a == [a[0]] + a[1..] && b == [b[0]] + b[1..];
    }
  }

  lemma {:induction false} NotBeforeChains(a: string, b: string, c: string)
    requires !Before(b, a) && !Before(c, b)
    ensures !Before(c, a)
    decreases |a| + |b| + |c|
  {
    if a != "" && b != "" && c != "" && a[0] == b[0] == c[0] { NotBeforeChains(a[1..], b[1..], c[1..]); }
  }

  predicate Sorted(cs: seq<Condition>) {
    forall i, j :: 0 <= i < j < |cs| ==> !Before(cs[j].ctype, cs[i].ctype)
  }

  lemma {:induction false} InsertSorted(c: Condition, cs: seq<Condition>)
    requires Sorted(cs)
    ensures Sorted(Insert(c, cs))
    decreases |cs|
  {
    if cs == [] {
    } else if !Before(cs[0].ctype, c.ctype) {
      forall j | 0 <= j < |cs| ensures !Before(cs[j].ctype, c.ctype) {
        if j > 0 { NotBeforeChains(c.ctype, cs[0].ctype, cs[j].ctype); }
      }
    } else {
      InsertSorted(c, cs[1..]);
      var r := Insert(c, cs[1..]);
      BeforeCompares(cs[0].ctype, c.ctype);
      forall j | 0 <= j < |r| ensures !Before(r[j].ctype, cs[0].ctype) {
        assert r[j] in r;
        if r[j] != c {
          var k :| 0 <= k < |cs[1..]| && cs[1..][k] == r[j];
          assert cs[k + 1] == r[j];
        }
      }
    }
  }

  lemma {:induction false} SortSorted(cs: seq<Condition>)
    ensures Sorted(Sort(cs))
    decreases |cs|
  {
    if cs != [] {
      SortSorted(cs[1..]);
      InsertSorted(cs[0], Sort(cs[1..]));
    }
  }

  /** Setting a condition keeps the list sorted by type. */
  lemma SetSorted(cs: seq<Condition>, c: Condition, now: int)
    requires Sorted(cs)
    ensures Sorted(Set(cs, c, now))
  {
    hide Sorted, Sort;
    if !exists i :: 0 <= i < |cs| && SameBut(cs[i], c) { SortSorted(Others(cs, c.ctype) + [c.(since := now)]); }
  }

  /** The whole condition that is there afterwards: the old one if it says the same, else the new one
      with the time of the change. */
  lemma SetWhole(cs: seq<Condition>, c: Condition, now: int)
    requires Unique(cs)
    ensures var before, after := Get(cs, c.ctype), Get(Set(cs, c, now), c.ctype);
      after == if before.Some? && SameBut(before.value, c) then before else Some(c.(since := now))
  {
    if exists i :: 0 <= i < |cs| && SameBut(cs[i], c) {
      var i :| 0 <= i < |cs| && SameBut(cs[i], c);
      GetIsMember(cs, cs[i]);
    } else {
      var before := Get(cs, c.ctype);
      assert before.Some? ==> !SameBut(before.value, c) by {
        if before.Some? { var i :| 0 <= i < |cs| && cs[i] == before.value; }
      }
      SetReplaces(cs, c.(since := now));
    }
  }
}
