/** Which triggers an event reaches, and the decision to run the listener on a cache of its own
    namespace only. */
module Selection {
  import opened Wrappers

  type Labels = map<string, string>

  /** A namespaced object: a trigger, a binding or a template. */
  datatype Object = Object(namespace: string, name: string, labels: Labels, spec: string)

  type Matcher = Labels -> bool

  /** A label selector: absent, not valid, or what it matches. */
  datatype LabelSelector = Absent | Invalid | Selector(matches: Matcher)

  // ---- Listers -----------------------------------------------------------------------

  function ListAll(os: seq<Object>, matches: Matcher): seq<Object> {
    if os == [] then []
    else
      var rest := ListAll(os[1..], matches);
      if matches(os[0].labels) then [os[0]] + rest else rest
  }

  /** The objects of one namespace, in the order of the store; the empty name stands for all. */
  function Scope(os: seq<Object>, ns: string): seq<Object> {
    if os == [] then []
    else
      var rest := Scope(os[1..], ns);
      if ns == "" || os[0].namespace == ns then [os[0]] + rest else rest
  }

  function ListIn(os: seq<Object>, ns: string, matches: Matcher): seq<Object> {
    ListAll(Scope(os, ns), matches)
  }

  function GetIn(os: seq<Object>, ns: string, name: string): Option<Object> {
    if os == [] then None
    else if os[0].namespace == ns && os[0].name == name then Some(os[0])
    else GetIn(os[1..], ns, name)
  }

  function ListEach(os: seq<Object>, names: seq<string>, matches: Matcher): seq<Object> {
    if names == [] then []
    else ListEach(os, names[..|names| - 1], matches) + ListIn(os, names[|names| - 1], matches)
  }

  // ---- Selecting and merging ---------------------------------------------------------

  const EVERYWHERE := ["*"]

  function MatcherOf(labels: LabelSelector): Matcher {
    if labels.Selector? then labels.matches else (_ => true)
  }

  /** The triggers a namespace selector and a label selector pick for a listener in `ns`. */
  function Selected(os: seq<Object>, ns: string, names: seq<string>, labels: LabelSelector): Option<seq<Object>> {
    if labels.Invalid? then None
    else if names == EVERYWHERE then Some(ListAll(os, MatcherOf(labels)))
    else if names != [] then Some(ListEach(os, names, MatcherOf(labels)))
    else if labels.Selector? then Some(ListIn(os, ns, labels.matches))
    else Some([])
  }

  method SelectTriggers(os: seq<Object>, ns: string, names: seq<string>, labels: LabelSelector)
    returns (r: Option<seq<Object>>)
    ensures r == Selected(os, ns, names, labels)
  {
    if labels.Invalid? { return None; }
    var matches := MatcherOf(labels);
    if |names| == 1 && names[0] == "*" {
      assert names == EVERYWHERE;
      return Some(ListAll(os, matches));
    }
    if |names| != 0 {
      assert names != EVERYWHERE;
      var list: seq<Object> := [];
      var i := 0;
      while i < |names|
        invariant 0 <= i <= |names| && list == ListEach(os, names[..i], matches)
      {
        assert names[..i + 1][..i] == names[..i];
        list := list + ListIn(os, names[i], matches);
        i := i + 1;
      }
      assert names[..i] == names;
      return Some(list);
    }
    if labels.Selector? { return Some(ListIn(os, ns, matches)); }
    return Some([]);
  }

  /** A trigger of the listener itself: by reference, inline, or neither. */
  datatype ListenerTrigger = ByRef(name: string) | Inline(name: string, spec: string) | Undefined

  function Merged(os: seq<Object>, ns: string, own: seq<ListenerTrigger>, selected: seq<Object>): Option<seq<Object>> {
    if own == [] then Some(selected)
    else
      var before := Merged(os, ns, own[..|own| - 1], selected);
      if before.None? then None
      else
        match own[|own| - 1]
        case ByRef(name) =>
          var t := GetIn(os, ns, name);
          if t.Some? then Some(before.value + [t.value]) else before
        case Inline(name, spec) => Some(before.value + [Object(ns, name, map[], spec)])
        case Undefined => None
  }

  method Merge(os: seq<Object>, ns: string, own: seq<ListenerTrigger>, selected: seq<Object>)
    returns (r: Option<seq<Object>>)
    ensures r == Merged(os, ns, own, selected)
  {
    var triggers := selected;
    var i := 0;
    while i < |own|
      invariant 0 <= i <= |own| && Merged(os, ns, own[..i], selected) == Some(triggers)
    {
      assert own[..i + 1][..i] == own[..i];
      match own[i] {
        case ByRef(name) =>
          var t := GetIn(os, ns, name);
          if t.Some? { triggers := triggers + [t.value]; }
        case Inline(name, spec) => triggers := triggers + [Object(ns, name, map[], spec)];
        case Undefined =>
          MergeFails(os, ns, own, selected, i + 1);
          return None;
      }
      i := i + 1;
    }
    assert own[..i] == own;
    return Some(triggers);
  }

  lemma {:induction false} MergeFails(os: seq<Object>, ns: string, own: seq<ListenerTrigger>, selected: seq<Object>,
                                      n: nat)
    requires n <= |own| && Merged(os, ns, own[..n], selected).None?
    ensures Merged(os, ns, own, selected).None?
    decreases |own|
  {
    if n == |own| {
      assert own[..n] == own;
    } else {
      var m := |own| - 1;
      assert own[..m][..n] == own[..n];
      MergeFails(os, ns, own[..m], selected, n);
    }
  }

  // ---- The scope decision ------------------------------------------------------------

  /** The namespace selectors of a listener: its own and one per trigger group. */
  datatype Selectors = Selectors(own: seq<string>, groups: seq<seq<string>>)

  /** The flag handed to the sink: some selector names a namespace. */
  method IsMultiNS(el: Selectors) returns (multi: bool)
    ensures multi <==> !SingleNamespace(el)
  {
    multi := false;
    if |el.own| != 0 { multi := true; }
    var g := 0;
    while g < |el.groups|
      invariant 0 <= g <= |el.groups|
      invariant multi <==> el.own != [] || exists h :: 0 <= h < g && el.groups[h] != []
    {
      if |el.groups[g]| != 0 {
        multi := true;
        break;
      }
      g := g + 1;
    }
  }

  lemma {:induction false} ScopeOfScope(os: seq<Object>, ns: string)
    ensures Scope(Scope(os, ns), ns) == Scope(os, ns)
    decreases |os|
  {
    if os != [] {
      ScopeOfScope(os[1..], ns);
      var rest := Scope(os[1..], ns);
      if os[0].namespace == ns { assert ([os[0]] + rest)[1..] == rest; }
    }
  }

  lemma {:induction false} GetInScope(os: seq<Object>, ns: string, name: string)
    ensures GetIn(Scope(os, ns), ns, name) == GetIn(os, ns, name)
    decreases |os|
  {
    if os != [] {
      GetInScope(os[1..], ns, name);
      var rest := Scope(os[1..], ns);
      if os[0].namespace == ns { assert ([os[0]] + rest)[1..] == rest; }
    }
  }

  /** A selector that names nothing but the listener's own namespace, unless that is everything. */
  predicate Narrow(names: seq<string>, ns: string) {
    ns == "" || (names != EVERYWHERE && forall i :: 0 <= i < |names| ==> names[i] == ns)
  }

  lemma {:induction false} ScopeOfAll(os: seq<Object>)
    ensures Scope(os, "") == os
    decreases |os|
  {
    if os != [] { ScopeOfAll(os[1..]); }
  }

  lemma {:induction false} ListEachInScope(os: seq<Object>, ns: string, names: seq<string>, matches: Matcher)
    requires forall i :: 0 <= i < |names| ==> names[i] == ns
    ensures ListEach(Scope(os, ns), names, matches) == ListEach(os, names, matches)
    decreases |names|
  {
    if names != [] {
      ListEachInScope(os, ns, names[..|names| - 1], matches);
      ScopeOfScope(os, ns);
    }
  }

  lemma NarrowAgrees(os: seq<Object>, ns: string, names: seq<string>, labels: LabelSelector)
    requires Narrow(names, ns)
    ensures Selected(Scope(os, ns), ns, names, labels) == Selected(os, ns, names, labels)
  {
    if ns == "" {
      ScopeOfAll(os);
    } else if !labels.Invalid? {
      ListEachInScope(os, ns, names, MatcherOf(labels));
      ScopeOfScope(os, ns);
    }
  }

  lemma {:induction false} MergeInScope(os: seq<Object>, ns: string, own: seq<ListenerTrigger>, selected: seq<Object>)
    ensures Merged(Scope(os, ns), ns, own, selected) == Merged(os, ns, own, selected)
    decreases |own|
  {
    if own != [] {
      MergeInScope(os, ns, own[..|own| - 1], selected);
      var last := own[|own| - 1];
      if last.ByRef? { GetInScope(os, ns, last.name); }
    }
  }

  predicate AllIn(os: seq<Object>, ns: string) {
    ns == "" || forall i :: 0 <= i < |os| ==> os[i].namespace == ns
  }

  lemma {:induction false} ListedIn(os: seq<Object>, ns: string, matches: Matcher)
    ensures AllIn(Scope(os, ns), ns) && (AllIn(os, ns) ==> AllIn(ListAll(os, matches), ns))
    decreases |os|
  {
    if os != [] {
      ListedIn(os[1..], ns, matches);
    }
  }

  lemma {:induction false} MergedIn(os: seq<Object>, ns: string, own: seq<ListenerTrigger>, selected: seq<Object>)
    requires AllIn(selected, ns)
    ensures var r := Merged(os, ns, own, selected); r.Some? ==> AllIn(r.value, ns)
    decreases |own|
  {
    if own != [] {
      MergedIn(os, ns, own[..|own| - 1], selected);
      var last := own[|own| - 1];
      if last.ByRef? { GetInNamespace(os, ns, last.name); }
    }
  }

  lemma GetInNamespace(os: seq<Object>, ns: string, name: string)
    ensures var t := GetIn(os, ns, name); t.Some? ==> t.value.namespace == ns
  {
  }

  /** Every lookup of a binding or template beside one of these triggers is the same from the
      namespace's cache. */
  ghost predicate LookupsAgree(ts: seq<Object>, others: seq<Object>, ns: string) {
    forall i, name :: 0 <= i < |ts| ==>
      GetIn(Scope(others, ns), ts[i].namespace, name) == GetIn(others, ts[i].namespace, name)
  }

  lemma InScopeLookups(ts: seq<Object>, others: seq<Object>, ns: string)
    requires AllIn(ts, ns)
    ensures LookupsAgree(ts, others, ns)
  {
    if ns == "" { ScopeOfAll(others); }
    forall name ensures GetIn(Scope(others, ns), ns, name) == GetIn(others, ns, name) { GetInScope(others, ns, name); }
  }

  predicate SingleNamespace(el: Selectors) {
    el.own == [] && forall g :: 0 <= g < |el.groups| ==> el.groups[g] == []
  }

  /** What a selector that names nothing picks lies in the own namespace. */
  lemma OwnSelection(triggers: seq<Object>, others: seq<Object>, ns: string, labels: LabelSelector)
    ensures var full := Selected(triggers, ns, [], labels);
      && Selected(Scope(triggers, ns), ns, [], labels) == full
      && (full.Some? ==> AllIn(full.value, ns) && LookupsAgree(full.value, others, ns))
  {
    NarrowAgrees(triggers, ns, [], labels);
    var full := Selected(triggers, ns, [], labels);
    if full.Some? {
      ListedIn(triggers, ns, MatcherOf(labels));
      ListedIn(Scope(triggers, ns), ns, MatcherOf(labels));
      InScopeLookups(full.value, others, ns);
    }
  }

  /** Whenever the flag is false, for every cluster state the listener's merged triggers, and the
      triggers any group selects, are the same from the namespace's cache as from the whole one,
      and so is every later lookup of a binding or template beside one of them. */
  lemma ScopedCacheAgrees(triggers: seq<Object>, others: seq<Object>, ns: string, el: Selectors,
                          labels: LabelSelector, own: seq<ListenerTrigger>)
    requires SingleNamespace(el)
    ensures var full := Selected(triggers, ns, el.own, labels);
      && Selected(Scope(triggers, ns), ns, el.own, labels) == full
      && (full.Some? ==>
            var m := Merged(triggers, ns, own, full.value);
            Merged(Scope(triggers, ns), ns, own, full.value) == m && (m.Some? ==> LookupsAgree(m.value, others, ns)))
    ensures forall g, groupLabels :: 0 <= g < |el.groups| ==>
      var full := Selected(triggers, ns, el.groups[g], groupLabels);
      Selected(Scope(triggers, ns), ns, el.groups[g], groupLabels) == full &&
        (full.Some? ==> LookupsAgree(full.value, others, ns))
  {
    hide Selected, LookupsAgree;
    OwnSelection(triggers, others, ns, labels);
    var full := Selected(triggers, ns, [], labels);
    if full.Some? {
      MergeInScope(triggers, ns, own, full.value);
      MergedIn(triggers, ns, own, full.value);
      var m := Merged(triggers, ns, own, full.value);
      if m.Some? { InScopeLookups(m.value, others, ns); }
    }
    forall g, groupLabels | 0 <= g < |el.groups|
      ensures var picked := Selected(triggers, ns, el.groups[g], groupLabels);
        Selected(Scope(triggers, ns), ns, el.groups[g], groupLabels) == picked &&
          (picked.Some? ==> LookupsAgree(picked.value, others, ns))
    {
      OwnSelection(triggers, others, ns, groupLabels);
    }
  }

  /** For one selector the caches agree on every cluster state exactly when it is narrow, given that
      the labels match something: the flag errs only on the safe side, for a selector that names
      the listener's own namespace. */
  lemma ScopeExact(ns: string, names: seq<string>, labels: LabelSelector, some: Labels)
    requires !labels.Invalid? && MatcherOf(labels)(some)
    ensures Narrow(names, ns) <==>
      forall os :: Selected(Scope(os, ns), ns, names, labels) == Selected(os, ns, names, labels)
  {
    if Narrow(names, ns) {
      forall os ensures Selected(Scope(os, ns), ns, names, labels) == Selected(os, ns, names, labels) {
        NarrowAgrees(os, ns, names, labels);
      }
    } else if names == EVERYWHERE {
      var far := [Object(ns + "x", "", some, "")];
      assert Scope(far, ns) == [] by { assert far[1..] == []; assert |ns + "x"| != |ns|; }
      assert ListAll(far, MatcherOf(labels)) == far by { assert far[1..] == []; }
      assert Selected(Scope(far, ns), ns, names, labels) != Selected(far, ns, names, labels);
    } else {
      var i :| 0 <= i < |names| && names[i] != ns;
      var far := [Object(if names[i] == "" then ns + "x" else names[i], "", some, "")];
      assert Scope(far, ns) == [] by { assert far[1..] == []; assert |ns + "x"| != |ns|; }
      ListEachFinds(far, names, i, MatcherOf(labels));
      ListEachNothing(names, MatcherOf(labels));
      assert Selected(Scope(far, ns), ns, names, labels) != Selected(far, ns, names, labels);
    }
  }

  lemma {:induction false} ListEachFinds(os: seq<Object>, names: seq<string>, i: nat, matches: Matcher)
    requires i < |names| && |os| == 1 && names[i] in {"", os[0].namespace} && matches(os[0].labels)
    ensures ListEach(os, names, matches) != []
    decreases |names|
  {
    if i < |names| - 1 {
      ListEachFinds(os, names[..|names| - 1], i, matches);
    } else {
      assert os == [os[0]] && os[1..] == [];
      assert Scope(os, names[i]) == os;
      assert ListAll(os, matches) == os;
    }
  }

  lemma {:induction false} ListEachNothing(names: seq<string>, matches: Matcher)
    ensures ListEach([], names, matches) == []
    decreases |names|
  {
    if names != [] { ListEachNothing(names[..|names| - 1], matches); }
  }

  // ---- What listing, selecting and merging give --------------------------------------

  predicate Ascending(idx: seq<nat>) {
    forall j, k :: 0 <= j < k < |idx| ==> idx[j] < idx[k]
  }

  function Shifted(idx: seq<nat>): (r: seq<nat>)
    ensures |r| == |idx| && forall j :: 0 <= j < |idx| ==> r[j] == idx[j] + 1
  {
    seq(|idx|, j requires 0 <= j < |idx| => idx[j] + 1)
  }

  predicate InReach(o: Object, ns: string, matches: Matcher) {
    (ns == "" || o.namespace == ns) && matches(o.labels)
  }

  lemma ListInCons(os: seq<Object>, ns: string, matches: Matcher)
    requires os != []
    ensures ListIn(os, ns, matches) ==
      (if InReach(os[0], ns, matches) then [os[0]] else []) + ListIn(os[1..], ns, matches)
  {
    var rest := Scope(os[1..], ns);
    if ns == "" || os[0].namespace == ns {
      assert ([os[0]] + rest)[1..] == rest;
    }
  }

  /** `list` is the objects of `os` at the places `idx`, which are all that are in reach, in order. */
  predicate Picks(idx: seq<nat>, os: seq<Object>, list: seq<Object>, ns: string, matches: Matcher) {
    && Ascending(idx) && |idx| == |list|
    && (forall j :: 0 <= j < |idx| ==> idx[j] < |os| && list[j] == os[idx[j]])
    && (forall i :: 0 <= i < |os| ==> (i in idx <==> InReach(os[i], ns, matches)))
  }

  lemma PicksLater(idx: seq<nat>, os: seq<Object>, list: seq<Object>, ns: string, matches: Matcher)
    requires os != [] && Picks(idx, os[1..], list, ns, matches) && !InReach(os[0], ns, matches)
    ensures Picks(Shifted(idx), os, list, ns, matches)
  {
    hide InReach;
    ShiftedMembers(idx);
    forall i | 0 <= i < |os| ensures i in Shifted(idx) <==> InReach(os[i], ns, matches) {
      if i > 0 { assert os[i] == os[1..][i - 1]; }
    }
  }

  lemma PicksFirst(idx: seq<nat>, os: seq<Object>, list: seq<Object>, ns: string, matches: Matcher)
    requires os != [] && Picks(idx, os[1..], list, ns, matches) && InReach(os[0], ns, matches)
    ensures Picks([0] + Shifted(idx), os, [os[0]] + list, ns, matches)
  {
    hide InReach, Ascending;
    var later := Shifted(idx);
    var all, found := [0] + later, [os[0]] + list;
    ShiftedMembers(idx);
    ZeroFirst(idx);
    forall j | 0 <= j < |all| ensures all[j] < |os| && found[j] == os[all[j]] {
      if j > 0 { assert all[j] == idx[j - 1] + 1 && found[j] == list[j - 1] == os[1..][idx[j - 1]]; }
    }
    forall i | 0 <= i < |os| ensures i in all <==> InReach(os[i], ns, matches) {
      FrontMembers(later, i);
      if i > 0 { assert os[i] == os[1..][i - 1]; }
    }
  }

  lemma ZeroFirst(idx: seq<nat>)
    requires Ascending(idx)
    ensures Ascending([0] + Shifted(idx))
  {
  }

  lemma FrontMembers(later: seq<nat>, i: nat)
    ensures i in [0] + later <==> i == 0 || i in later
  {
  }

  /** A listing is exactly the objects of the store that lie in the namespace (or anywhere, for the
      empty name) and whose labels match, in the order of the store. */
  lemma {:induction false} ListingExact(os: seq<Object>, ns: string, matches: Matcher) returns (idx: seq<nat>)
    ensures Picks(idx, os, ListIn(os, ns, matches), ns, matches)
    decreases |os|
  {
    if os == [] {
      idx := [];
    } else {
      var rest := ListingExact(os[1..], ns, matches);
      ListInCons(os, ns, matches);
      hide ListIn, InReach, Picks;
      var list := ListIn(os[1..], ns, matches);
      if InReach(os[0], ns, matches) {
        PicksFirst(rest, os, list, ns, matches);
        idx := [0] + Shifted(rest);
      } else {
        PicksLater(rest, os, list, ns, matches);
        assert [] + list == list;
        idx := Shifted(rest);
      }
    }
  }

  lemma ShiftedMembers(idx: seq<nat>)
    ensures forall i: nat :: i >= 1 ==> (i in Shifted(idx) <==> (i - 1) as nat in idx)
  {
    forall i: nat | i >= 1 ensures i in Shifted(idx) <==> (i - 1) as nat in idx {
      if (i - 1) as nat in idx {
        var j :| 0 <= j < |idx| && idx[j] == i - 1;
        assert Shifted(idx)[j] == i;
      }
    }
  }

  lemma ListingMembers(os: seq<Object>, ns: string, matches: Matcher, o: Object)
    ensures o in ListIn(os, ns, matches) <==> o in os && InReach(o, ns, matches)
  {
    var idx := ListingExact(os, ns, matches);
    hide ListIn, InReach;
    if o in os && InReach(o, ns, matches) {
      var i :| 0 <= i < |os| && os[i] == o;
      var j :| 0 <= j < |idx| && idx[j] == i;
      assert ListIn(os, ns, matches)[j] == o;
    }
  }

  lemma {:induction false} EachMembers(os: seq<Object>, names: seq<string>, matches: Matcher, o: Object)
    ensures o in ListEach(os, names, matches) <==>
      o in os && exists i :: 0 <= i < |names| && InReach(o, names[i], matches)
    decreases |names|
  {
    hide ListIn, InReach;
    if names != [] {
      var n := |names| - 1;
      EachMembers(os, names[..n], matches, o);
      ListingMembers(os, names[n], matches, o);
      LastListed(os, names, matches);
      hide ListEach;
      assert forall i :: 0 <= i < n ==> names[..n][i] == names[i];
    }
  }

  /** Several names are listed one after the other. */
  lemma {:induction false} EachInTurn(os: seq<Object>, a: seq<string>, b: seq<string>, matches: Matcher)
    ensures ListEach(os, a + b, matches) == ListEach(os, a, matches) + ListEach(os, b, matches)
    decreases |b|
  {
    hide ListIn;
    if b == [] {
      assert a + b == a;
      assert ListEach(os, a, matches) + [] == ListEach(os, a, matches);
    } else {
      var n := |b| - 1;
      EachInTurn(os, a, b[..n], matches);
      LastListed(os, a + b, matches);
      LastListed(os, b, matches);
      assert (a + b)[..|a| + n] == a + b[..n] && (a + b)[|a| + n] == b[n];
      hide ListEach;
      ObjectsAssociate(ListEach(os, a, matches), ListEach(os, b[..n], matches), ListIn(os, b[n], matches));
    }
  }

  lemma LastListed(os: seq<Object>, names: seq<string>, matches: Matcher)
    requires names != []
    ensures var n := |names| - 1;
      ListEach(os, names, matches) == ListEach(os, names[..n], matches) + ListIn(os, names[n], matches)
  {
  }

  lemma ObjectsAssociate(a: seq<Object>, b: seq<Object>, c: seq<Object>)
    ensures a + (b + c) == a + b + c
  {
  }

  /** Where the selectors of a listener in `ns` reach. */
  predicate Reached(o: Object, ns: string, names: seq<string>, labels: LabelSelector) {
    && (labels.Selector? ==> labels.matches(o.labels))
    && (if names == ["*"] then true
        else if names != [] then exists i :: 0 <= i < |names| && names[i] in {"", o.namespace}
        else labels.Selector? && ns in {"", o.namespace})
  }

  /** Selection fails exactly for an invalid label selector, and else picks exactly what the selectors
      reach. */
  lemma SelectedExact(os: seq<Object>, ns: string, names: seq<string>, labels: LabelSelector, o: Object)
    ensures Selected(os, ns, names, labels).None? <==> labels.Invalid?
    ensures !labels.Invalid? ==>
      (o in Selected(os, ns, names, labels).value <==> o in os && Reached(o, ns, names, labels))
  {
    var matches := MatcherOf(labels);
    ListingMembers(os, ns, matches, o);
    ListingMembers(os, "", matches, o);
    ScopeOfAll(os);
    EachMembers(os, names, matches, o);
    hide ListAll, Scope, ListEach;
  }

  /** What a trigger of the listener itself stands for. */
  predicate Stands(os: seq<Object>, ns: string, t: ListenerTrigger, o: Object) {
    match t
    case ByRef(name) => o in os && o.namespace == ns && o.name == name
    case Inline(name, spec) => o == Object(ns, name, map[], spec)
    case Undefined => false
  }

  predicate Missing(os: seq<Object>, ns: string, t: ListenerTrigger) {
    t.ByRef? && forall i :: 0 <= i < |os| ==> !(os[i].namespace == ns && os[i].name == t.name)
  }

  lemma {:induction false} GetInExact(os: seq<Object>, ns: string, name: string)
    ensures var t := GetIn(os, ns, name);
      if t.Some? then Stands(os, ns, ByRef(name), t.value) else Missing(os, ns, ByRef(name))
    decreases |os|
  {
    if os != [] {
      GetInExact(os[1..], ns, name);
      assert forall i :: 1 <= i < |os| ==> os[i] == os[1..][i - 1];
    }
  }

  /** A merge fails exactly when some trigger of the listener is neither inline nor a reference. */
  lemma {:induction false} MergedFails(os: seq<Object>, ns: string, own: seq<ListenerTrigger>, selected: seq<Object>)
    ensures Merged(os, ns, own, selected).None? <==> exists i :: 0 <= i < |own| && own[i].Undefined?
    decreases |own|
  {
    if own != [] {
      var n := |own| - 1;
      MergedFails(os, ns, own[..n], selected);
      assert forall i :: 0 <= i < n ==> own[..n][i] == own[i];
    }
  }

  /** `r` is all of `selected` and then what the listener's triggers at the places `idx` stand for, in
      order; the other ones are missing. */
  predicate Merges(idx: seq<nat>, os: seq<Object>, ns: string, own: seq<ListenerTrigger>, selected: seq<Object>,
                   r: seq<Object>)
  {
    && |r| == |selected| + |idx| && r[..|selected|] == selected && Ascending(idx)
    && (forall j :: 0 <= j < |idx| ==> idx[j] < |own| && Stands(os, ns, own[idx[j]], r[|selected| + j]))
    && (forall i :: 0 <= i < |own| && i !in idx ==> Missing(os, ns, own[i]))
  }

  lemma MergesOneMore(idx: seq<nat>, os: seq<Object>, ns: string, own: seq<ListenerTrigger>, selected: seq<Object>,
                      r: seq<Object>, o: Object)
    requires own != [] && Merges(idx, os, ns, own[..|own| - 1], selected, r) && Stands(os, ns, own[|own| - 1], o)
    ensures Merges(idx + [|own| - 1], os, ns, own, selected, r + [o])
  {
    hide Stands, Missing;
    var n := |own| - 1;
    var more, s := idx + [n], r + [o];
    assert s[..|selected|] == r[..|selected|];
    assert forall i :: 0 <= i < n ==> own[..n][i] == own[i];
    assert forall j :: 0 <= j < |idx| ==> more[j] == idx[j] && s[|selected| + j] == r[|selected| + j];
    assert more[|idx|] == n && s[|selected| + |idx|] == o;
  }

  lemma MergesSkip(idx: seq<nat>, os: seq<Object>, ns: string, own: seq<ListenerTrigger>, selected: seq<Object>,
                   r: seq<Object>)
    requires own != [] && Merges(idx, os, ns, own[..|own| - 1], selected, r) && Missing(os, ns, own[|own| - 1])
    ensures Merges(idx, os, ns, own, selected, r)
  {
    hide Stands, Missing;
    var n := |own| - 1;
    assert forall i :: 0 <= i < n ==> own[..n][i] == own[i];
  }

  /** A merge that succeeds starts with all selected triggers; behind them stand the listener's own in
      their order, a reference skipped exactly when the store has no such object. */
  lemma {:induction false} MergedExact(os: seq<Object>, ns: string, own: seq<ListenerTrigger>, selected: seq<Object>)
    returns (idx: seq<nat>)
    requires Merged(os, ns, own, selected).Some?
    ensures Merges(idx, os, ns, own, selected, Merged(os, ns, own, selected).value)
    decreases |own|
  {
    if own == [] {
      idx := [];
    } else {
      var n := |own| - 1;
      var before := MergedExact(os, ns, own[..n], selected);
      var r := Merged(os, ns, own[..n], selected).value;
      hide Stands, Missing, Merges, GetIn;
      match own[n]
      case ByRef(name) =>
        GetInExact(os, ns, name);
        var t := GetIn(os, ns, name);
        if t.Some? {
          MergesOneMore(before, os, ns, own, selected, r, t.value);
          idx := before + [n];
        } else {
          MergesSkip(before, os, ns, own, selected, r);
          idx := before;
        }
      case Inline(name, spec) =>
        InlineStands(os, ns, name, spec);
        MergesOneMore(before, os, ns, own, selected, r, Object(ns, name, map[], spec));
        idx := before + [n];
      case Undefined => idx := before;
    }
  }

  lemma InlineStands(os: seq<Object>, ns: string, name: string, spec: string)
    ensures Stands(os, ns, Inline(name, spec), Object(ns, name, map[], spec))
  {
  }
}
