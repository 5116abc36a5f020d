/** The interceptor chain of the sink, for a trigger and for a group of triggers.

    The services behind the interceptors are parameters.  Extensions are the JSON text of each
    value under its key; a nil extensions map and an empty one are the same. */
module Chain {
  import opened Wrappers

  type Fields = map<string, seq<string>>

  type Values = map<string, string>

  datatype Interceptor =
    | Webhook(hook: string)
    | Remote(ref: string, params: Values)

  /** What a remote interceptor is sent; the trigger id is part of the context. */
  datatype View = View(body: string, header: Fields, exts: Values, params: Values, triggerID: string)

  datatype Reply = Reply(go: bool, exts: Values)

  datatype Payload = Payload(body: string, header: Fields)

  /** The world outside the chain; `None` is an error. */
  datatype Services = Services(
    extend: (string, Values) -> Option<string>,                       // extensions merged into a body
    hook: (string, string, Fields, string) -> Option<Payload>,        // webhook, namespace, header, body
    resolve: string -> Option<string>,                                // interceptor reference to URL
    call: (string, View) -> Option<Reply>)

  /** What the chain threads from one interceptor to the next. */
  datatype Flow = Flow(body: string, header: Fields, exts: Values)

  datatype Outcome = Failed | Stopped | Continue(flow: Flow)

  /** Identity of the run: passed to every service, never part of the flow. */
  datatype Context = Context(triggerID: string, namespace: string)

  function StepOne(i: Interceptor, f: Flow, ctx: Context, sv: Services): Outcome {
    match i
    case Webhook(hook) =>
      var body := sv.extend(f.body, f.exts);
      if body.None? then Failed
      else
        var p := sv.hook(hook, ctx.namespace, f.header, body.value);
        if p.None? then Failed else Continue(Flow(p.value.body, p.value.header, f.exts))
    case Remote(ref, params) =>
      var url := sv.resolve(ref);
      if url.None? then Failed
      else
        var r := sv.call(url.value, View(f.body, f.header, f.exts, params, ctx.triggerID));
        if r.None? then Failed
        else if !r.value.go then Stopped
        else Continue(f.(exts := f.exts + r.value.exts))
  }

  function RunChain(chain: seq<Interceptor>, f: Flow, ctx: Context, sv: Services): Outcome {
    if chain == [] then Continue(f)
    else
      var r := StepOne(chain[0], f, ctx, sv);
      if r.Continue? then RunChain(chain[1..], r.flow, ctx, sv) else r
  }

  const FORM := "application/x-www-form-urlencoded"

  /** First value of a header field, or nothing. */
  function FieldOf(h: Fields, name: string): string {
    if name in h && h[name] != [] then h[name][0] else ""
  }

  /** A form body with more than one entry is handed to the chain as JSON; `asJson` is `None` for
      any other body. */
  function Incoming(h: Fields, event: string, asJson: string -> Option<string>): string {
    if FieldOf(h, "Content-Type") == FORM && asJson(event).Some? then asJson(event).value else event
  }

  /** What `processTrigger` goes on with, if it goes on. */
  function ForTrigger(chain: seq<Interceptor>, f: Flow, ctx: Context, sv: Services,
                      asJson: string -> Option<string>): Outcome {
    if chain == [] then Continue(f)
    else RunChain(chain, f.(body := Incoming(f.header, f.body, asJson)), ctx, sv)
  }

  /** A trigger of a group: the group's chain first, then the trigger's own chain with the group's
      header and extensions but with the body of the event. */
  function InGroup(groupChain: seq<Interceptor>, chain: seq<Interceptor>, event: string, h: Fields,
                   groupCtx: Context, ctx: Context, sv: Services, asJson: string -> Option<string>): Outcome
  {
    var r := ForTrigger(groupChain, Flow(event, h, map[]), groupCtx, sv, asJson);
    if r.Continue? then ForTrigger(chain, r.flow.(body := event), ctx, sv, asJson) else r
  }

  // ---- The source's form -------------------------------------------------------------

  /** A header map, shared by reference. */
  class Header {
    var fields: Fields
    constructor (fields: Fields)
      ensures this.fields == fields
    {
      this.fields := fields;
    }
  }

  /** An extensions map, shared by reference. */
  class Extensions {
    var entries: Values
    constructor (entries: Values)
      ensures this.entries == entries
    {
      this.entries := entries;
    }
  }

  /** The request sent along the chain; the loop rewrites its fields. */
  class InterceptorRequest {
    var body: string
    var header: Header
    var extensions: Extensions
    var params: Values
    constructor (body: string, header: Header, extensions: Extensions)
      ensures this.body == body && this.header == header && this.extensions == extensions && params == map[]
    {
      this.body, this.header, this.extensions, this.params := body, header, extensions, map[];
    }

    ghost function Contents(): Flow
      reads this, header, extensions
    {
      Flow(body, header.fields, extensions.entries)
    }
  }

  datatype ChainEnd =
    | Error
    | Stop
    | NoChain(body: string, header: Header)
    | Done(body: string, header: Header, extensions: Extensions)

  /** One turn of the loop: the request becomes what the next interceptor is sent. */
  method ExecuteOne(i: Interceptor, request: InterceptorRequest, ctx: Context, sv: Services) returns (r: Outcome)
    modifies request, request.extensions
    ensures r == old(StepOne(i, request.Contents(), ctx, sv))
    ensures r.Continue? ==> request.Contents() == r.flow
    ensures request.extensions == old(request.extensions)
    ensures request.header == old(request.header) || fresh(request.header)
  {
    match i {
      case Webhook(hook) =>
        var body := sv.extend(request.body, request.extensions.entries);
        if body.None? { return Failed; }
        var res := sv.hook(hook, ctx.namespace, request.header.fields, body.value);
        if res.None? { return Failed; }
        var answer := new Header(res.value.header);
        request.header := answer;
        request.body := res.value.body;
      case Remote(ref, params) =>
        request.params := params;
        var url := sv.resolve(ref);
        if url.None? { return Failed; }
        var exts := request.extensions.entries;
        var reply := sv.call(url.value, View(request.body, request.header.fields, exts, request.params, ctx.triggerID));
        if reply.None? { return Failed; }
        if !reply.value.go { return Stopped; }
        request.extensions.entries := request.extensions.entries + reply.value.exts;
        request.params := map[];
    }
    return Continue(Flow(request.body, request.header.fields, request.extensions.entries));
  }

  /** Runs a chain.  Nothing that existed before is written: in particular neither the caller's
      header nor the extensions it shares with other triggers. */
  method ExecuteInterceptors(chain: seq<Interceptor>, header: Header, event: string, extensions: Extensions,
                             ctx: Context, sv: Services, asJson: string -> Option<string>)
    returns (r: ChainEnd)
    ensures r.NoChain? <==> chain == []
    ensures r.NoChain? ==> r.body == event && r.header == header
    ensures r.Done? ==> fresh(r.header) && fresh(r.extensions)
    ensures chain != [] ==>
      ForTrigger(chain, Flow(event, header.fields, extensions.entries), ctx, sv, asJson) ==
      match r
      case Error => Failed
      case Stop => Stopped
      case NoChain(_, _) => Failed
      case Done(body, h, x) => Continue(Flow(body, h.fields, x.entries))
  {
    if chain == [] { return NoChain(event, header); }
    var copied := new Header(header.fields);
    var exts := new Extensions(extensions.entries);
    var request := new InterceptorRequest(event, copied, exts);
    var json := asJson(request.body);
    if FieldOf(header.fields, "Content-Type") == FORM && json.Some? {
      request.body := json.value;
    }
    hide StepOne;
    ghost var result := ForTrigger(chain, Flow(event, header.fields, extensions.entries), ctx, sv, asJson);
    var k := 0;
    while k < |chain|
      invariant 0 <= k <= |chain|
      invariant fresh(request) && fresh(request.header) && fresh(request.extensions)
      invariant result == RunChain(chain[k..], request.Contents(), ctx, sv)
    {
      assert chain[k..][0] == chain[k] && chain[k..][1..] == chain[k + 1..];
      var o := ExecuteOne(chain[k], request, ctx, sv);
      match o {
        case Failed => return Error;
        case Stopped => return Stop;
        case Continue(_) =>
      }
      k := k + 1;
    }
    return Done(request.body, request.header, request.extensions);
  }

  /** The group's part: its own extensions map is filled before any of its triggers starts. */
  method ProcessGroup(groupChain: seq<Interceptor>, header: Header, event: string, ctx: Context,
                      sv: Services, asJson: string -> Option<string>)
    returns (go: bool, groupHeader: Header, extensions: Extensions)
    ensures fresh(extensions)
    ensures ForTrigger(groupChain, Flow(event, header.fields, map[]), ctx, sv, asJson).Continue? <==> go
    ensures go ==> ForTrigger(groupChain, Flow(event, header.fields, map[]), ctx, sv, asJson).flow.(body := event) ==
                   Flow(event, groupHeader.fields, extensions.entries)
  {
    extensions := new Extensions(map[]);
    groupHeader := header;
    var r := ExecuteInterceptors(groupChain, header, event, extensions, ctx, sv, asJson);
    match r {
      case Error => return false, groupHeader, extensions;
      case Stop => return false, groupHeader, extensions;
      case NoChain(_, h) => groupHeader := h;
      case Done(_, h, x) =>
        groupHeader := h;
        extensions.entries := extensions.entries + x.entries;
    }
    go := true;
  }

  /** One trigger, alone or of a group: the header and extensions handed to it are only read. */
  method ProcessTrigger(chain: seq<Interceptor>, header: Header, event: string, extensions: Extensions,
                        ctx: Context, sv: Services, asJson: string -> Option<string>)
    returns (r: Outcome)
    ensures r == ForTrigger(chain, Flow(event, header.fields, extensions.entries), ctx, sv, asJson)
  {
    var localHeader := new Header(header.fields);
    var e := ExecuteInterceptors(chain, localHeader, event, extensions, ctx, sv, asJson);
    match e {
      case Error => return Failed;
      case Stop => return Stopped;
      case NoChain(body, h) => return Continue(Flow(body, h.fields, extensions.entries));
      case Done(body, h, x) => return Continue(Flow(body, h.fields, x.entries));
    }
  }

  /** A group and its triggers: whatever the other triggers do, each one's outcome is the one it has
      alone in the group, because none of them writes what they share. */
  method ProcessTriggerGroup(groupChain: seq<Interceptor>, chains: seq<seq<Interceptor>>, header: Header, event: string,
                             groupCtx: Context, ctxs: seq<Context>, sv: Services, asJson: string -> Option<string>)
    returns (outcomes: seq<Outcome>)
    requires |ctxs| == |chains|
    ensures outcomes == [] || |outcomes| == |chains|
    ensures outcomes == [] ==>
      chains == [] || !ForTrigger(groupChain, Flow(event, header.fields, map[]), groupCtx, sv, asJson).Continue?
    ensures forall i :: 0 <= i < |outcomes| ==>
      outcomes[i] == InGroup(groupChain, chains[i], event, header.fields, groupCtx, ctxs[i], sv, asJson)
  {
    outcomes := [];
    var go, groupHeader, extensions := ProcessGroup(groupChain, header, event, groupCtx, sv, asJson);
    if !go { return; }
    ghost var f := Flow(event, groupHeader.fields, extensions.entries);
    hide ForTrigger, InGroup;
    var i := 0;
    while i < |chains|
      invariant 0 <= i <= |chains| && |outcomes| == i && f == Flow(event, groupHeader.fields, extensions.entries)
      invariant forall j :: 0 <= j < i ==>
        outcomes[j] == InGroup(groupChain, chains[j], event, header.fields, groupCtx, ctxs[j], sv, asJson)
    {
      var o := ProcessTrigger(chains[i], groupHeader, event, extensions, ctxs[i], sv, asJson);
      InGroupFrom(groupChain, chains[i], event, header.fields, groupCtx, ctxs[i], sv, asJson, f);
      outcomes := outcomes + [o];
      i := i + 1;
    }
  }

  lemma InGroupFrom(groupChain: seq<Interceptor>, chain: seq<Interceptor>, event: string, h: Fields,
                    groupCtx: Context, ctx: Context, sv: Services, asJson: string -> Option<string>, f: Flow)
    requires var r := ForTrigger(groupChain, Flow(event, h, map[]), groupCtx, sv, asJson);
      r.Continue? && r.flow.(body := event) == f
    ensures InGroup(groupChain, chain, event, h, groupCtx, ctx, sv, asJson) == ForTrigger(chain, f, ctx, sv, asJson)
  {
    hide ForTrigger;
  }

  // ---- Grouping ----------------------------------------------------------------------

  lemma {:induction false} RunAppend(a: seq<Interceptor>, b: seq<Interceptor>, f: Flow, ctx: Context, sv: Services)
    ensures RunChain(a + b, f, ctx, sv) ==
      var r := RunChain(a, f, ctx, sv); if r.Continue? then RunChain(b, r.flow, ctx, sv) else r
    decreases |a|
  {
    if a == [] {
      assert a + b == b;
    } else {
      assert (a + b)[0] == a[0] && (a + b)[1..] == a[1..] + b;
      var r := StepOne(a[0], f, ctx, sv);
      if r.Continue? { RunAppend(a[1..], b, r.flow, ctx, sv); }
    }
  }

  /** One more remote interceptor: it is sent what the chain before it came to, it may fail or stop
      the chain, and else its reply goes over the extensions, key by key, and nothing else changes. */
  lemma RemoteLast(a: seq<Interceptor>, ref: string, ps: Values, f: Flow, ctx: Context, sv: Services)
    requires RunChain(a, f, ctx, sv).Continue?
    ensures var g := RunChain(a, f, ctx, sv).flow; var o := RunChain(a + [Remote(ref, ps)], f, ctx, sv);
      var url := sv.resolve(ref);
      if url.None? then o == Failed
      else
        var reply := sv.call(url.value, View(g.body, g.header, g.exts, ps, ctx.triggerID));
        if reply.None? then o == Failed
        else if !reply.value.go then o == Stopped
        else
          && o.Continue? && o.flow.body == g.body && o.flow.header == g.header
          && o.flow.exts.Keys == g.exts.Keys + reply.value.exts.Keys
          && (forall k :: k in reply.value.exts ==> o.flow.exts[k] == reply.value.exts[k])
          && (forall k :: k in g.exts && k !in reply.value.exts ==> o.flow.exts[k] == g.exts[k])
  {
    RunAppend(a, [Remote(ref, ps)], f, ctx, sv);
    RunOne(Remote(ref, ps), RunChain(a, f, ctx, sv).flow, ctx, sv);
  }

  lemma RunOne(i: Interceptor, f: Flow, ctx: Context, sv: Services)
    ensures RunChain([i], f, ctx, sv) == StepOne(i, f, ctx, sv)
  {
    assert [i][1..] == [];
  }

  /** One more webhook: it is sent the header and the body extended by all extensions so far, for the
      namespace of the run, and its answer replaces both; the extensions stay. */
  lemma WebhookLast(a: seq<Interceptor>, hook: string, f: Flow, ctx: Context, sv: Services)
    requires RunChain(a, f, ctx, sv).Continue?
    ensures var g := RunChain(a, f, ctx, sv).flow; var o := RunChain(a + [Webhook(hook)], f, ctx, sv);
      var body := sv.extend(g.body, g.exts);
      if body.None? then o == Failed
      else
        var answer := sv.hook(hook, ctx.namespace, g.header, body.value);
        if answer.None? then o == Failed
        else
          && o.Continue? && o.flow.exts == g.exts
          && o.flow.body == answer.value.body && o.flow.header == answer.value.header
  {
    RunAppend(a, [Webhook(hook)], f, ctx, sv);
    RunOne(Webhook(hook), RunChain(a, f, ctx, sv).flow, ctx, sv);
  }

  /** What the reply of the last interceptor that has a key says is what the chain ends with. */
  lemma LaterReplyWins(a: seq<Interceptor>, ref: string, ps: Values, f: Flow, ctx: Context, sv: Services, key: string)
    requires RunChain(a + [Remote(ref, ps)], f, ctx, sv).Continue?
    ensures RunChain(a, f, ctx, sv).Continue? && sv.resolve(ref).Some?
    ensures var g := RunChain(a, f, ctx, sv).flow; var h := RunChain(a + [Remote(ref, ps)], f, ctx, sv).flow;
      var reply := sv.call(sv.resolve(ref).value, View(g.body, g.header, g.exts, ps, ctx.triggerID));
      && reply.Some?
      && (key in h.exts <==> key in reply.value.exts || key in g.exts)
      && (key in h.exts ==> h.exts[key] == if key in reply.value.exts then reply.value.exts[key] else g.exts[key])
  {
    RunAppend(a, [Remote(ref, ps)], f, ctx, sv);
    RemoteLast(a, ref, ps, f, ctx, sv);
  }

  /** The body a chain starts from: the event's, unless the first Content-Type is the form type and
      the event reads as a form of more than one entry.  An empty chain converts nothing. */
  lemma FirstIsSent(chain: seq<Interceptor>, f: Flow, ctx: Context, sv: Services, asJson: string -> Option<string>)
    ensures chain == [] ==> ForTrigger(chain, f, ctx, sv, asJson) == Continue(f)
    ensures
      var form := "Content-Type" in f.header && f.header["Content-Type"] != [] &&
        f.header["Content-Type"][0] == "application/x-www-form-urlencoded";
      chain != [] ==>
        var body := if form && asJson(f.body).Some? then asJson(f.body).value else f.body;
        ForTrigger(chain, f, ctx, sv, asJson) == RunChain(chain, Flow(body, f.header, f.exts), ctx, sv)
  {
    hide RunChain;
  }

  predicate NoWebhooks(chain: seq<Interceptor>) {
    forall k :: 0 <= k < |chain| ==> chain[k].Remote?
  }

  /** Services that look at neither the trigger id nor anything else of the context. */
  ghost predicate IgnoresContext(sv: Services) {
    forall url, v: View, id :: sv.call(url, v) == sv.call(url, v.(triggerID := id))
  }

  /** Without webhooks the chain changes extensions only, and not depending on the context. */
  lemma {:induction false} RemoteChain(chain: seq<Interceptor>, f: Flow, ctx: Context, ctx': Context, sv: Services)
    requires NoWebhooks(chain) && IgnoresContext(sv)
    ensures RunChain(chain, f, ctx, sv) == RunChain(chain, f, ctx', sv)
    ensures var r := RunChain(chain, f, ctx, sv); r.Continue? ==> r.flow == f.(exts := r.flow.exts)
    decreases |chain|
  {
    if chain != [] {
      var i := chain[0];
      assert i.Remote?;
      var url := sv.resolve(i.ref);
      if url.Some? {
        var v := View(f.body, f.header, f.exts, i.params, ctx.triggerID);
        assert sv.call(url.value, v) == sv.call(url.value, v.(triggerID := ctx'.triggerID));
      }
      var r := StepOne(i, f, ctx, sv);
      assert r == StepOne(i, f, ctx', sv);
      if r.Continue? { RemoteChain(chain[1..], r.flow, ctx, ctx', sv); }
    }
  }

  /** The group chain has no webhook, and the body is not a converted form that a trigger without
      a chain of its own would see unconverted. */
  predicate Transparent(a: seq<Interceptor>, b: seq<Interceptor>, event: string, h: Fields,
                        asJson: string -> Option<string>) {
    NoWebhooks(a) && (a == [] || b != [] || Incoming(h, event, asJson) == event)
  }

  lemma GroupingHolds(a: seq<Interceptor>, b: seq<Interceptor>, event: string, h: Fields,
                      groupCtx: Context, ctx: Context, sv: Services, asJson: string -> Option<string>)
    requires IgnoresContext(sv) && Transparent(a, b, event, h, asJson)
    ensures InGroup(a, b, event, h, groupCtx, ctx, sv, asJson) ==
            ForTrigger(a + b, Flow(event, h, map[]), ctx, sv, asJson)
  {
    if a == [] {
      assert a + b == b;
    } else {
      var f := Flow(Incoming(h, event, asJson), h, map[]);
      RemoteChain(a, f, groupCtx, ctx, sv);
      RunAppend(a, b, f, ctx, sv);
    }
  }

  // Services for which every webhook appends a text to the body and nothing else happens.

  function Appending(y: string): Services {
    Services(
      (body, exts) => Some(body),
      (hook, ns, h, body) => Some(Payload(body + y, h)),
      ref => Some(""),
      (url, v) => Some(Reply(true, map[])))
  }

  function Hooks(chain: seq<Interceptor>): nat {
    if chain == [] then 0 else (if chain[0].Webhook? then 1 else 0) + Hooks(chain[1..])
  }

  lemma {:induction false} HooksOfNone(chain: seq<Interceptor>)
    ensures Hooks(chain) == 0 <==> NoWebhooks(chain)
    decreases |chain|
  {
    if chain != [] {
      HooksOfNone(chain[1..]);
      assert NoWebhooks(chain) <==> chain[0].Remote? && NoWebhooks(chain[1..]) by {
        assert forall k :: 0 < k < |chain| ==> chain[k] == chain[1..][k - 1];
      }
    }
  }

  function Repeat(y: string, n: nat): string {
    if n == 0 then "" else y + Repeat(y, n - 1)
  }

  lemma RepeatLength(n: nat)
    ensures |Repeat("x", n)| == n && |Repeat("xx", n)| == 2 * n
  {
  }

  lemma {:induction false} AppendingRun(chain: seq<Interceptor>, f: Flow, ctx: Context, y: string)
    ensures RunChain(chain, f, ctx, Appending(y)) == Continue(f.(body := f.body + Repeat(y, Hooks(chain))))
    decreases |chain|
  {
    if chain == [] {
      assert f.body + "" == f.body;
    } else {
      var r := StepOne(chain[0], f, ctx, Appending(y));
      assert f.exts + map[] == f.exts;
      assert r == Continue(f.(body := if chain[0].Webhook? then f.body + y else f.body));
      AppendingRun(chain[1..], r.flow, ctx, y);
      assert (f.body + y) + Repeat(y, Hooks(chain[1..])) == f.body + (y + Repeat(y, Hooks(chain[1..])));
    }
  }

  lemma {:induction false} HooksAppend(a: seq<Interceptor>, b: seq<Interceptor>)
    ensures Hooks(a + b) == Hooks(a) + Hooks(b)
    decreases |a|
  {
    if a == [] {
      assert a + b == b;
    } else {
      assert (a + b)[0] == a[0] && (a + b)[1..] == a[1..] + b;
      HooksAppend(a[1..], b);
    }
  }

  lemma AppendingBodies(a: seq<Interceptor>, b: seq<Interceptor>, event: string, h: Fields,
                        groupCtx: Context, ctx: Context, y: string, asJson: string -> Option<string>)
    requires a != []
    ensures var body := Incoming(h, event, asJson);
      && InGroup(a, b, event, h, groupCtx, ctx, Appending(y), asJson) ==
         Continue(Flow(if b == [] then event else body + Repeat(y, Hooks(b)), h, map[]))
      && ForTrigger(a + b, Flow(event, h, map[]), ctx, Appending(y), asJson) ==
         Continue(Flow(body + Repeat(y, Hooks(a) + Hooks(b)), h, map[]))
  {
    var f := Flow(Incoming(h, event, asJson), h, map[]);
    AppendingRun(a, f, groupCtx, y);
    AppendingRun(b, f, ctx, y);
    AppendingRun(a + b, f, ctx, y);
    HooksAppend(a, b);
  }

  lemma GroupingFails(a: seq<Interceptor>, b: seq<Interceptor>, event: string, h: Fields,
                      groupCtx: Context, ctx: Context, asJson: string -> Option<string>) returns (sv: Services)
    requires !Transparent(a, b, event, h, asJson)
    ensures IgnoresContext(sv)
    ensures InGroup(a, b, event, h, groupCtx, ctx, sv, asJson) !=
      ForTrigger(a + b, Flow(event, h, map[]), ctx, sv, asJson)
  {
    hide InGroup, ForTrigger, Appending, Incoming, Hooks, IgnoresContext, Transparent, Repeat, RunChain;
    var body := Incoming(h, event, asJson);
    var n := Hooks(a) + Hooks(b);
    var y := if |body| + n != |event| then "x" else "xx";
    sv := Appending(y);
    AppendingIgnores(y);
    NotTransparent(a, b, event, h, asJson);
    AppendingBodies(a, b, event, h, groupCtx, ctx, y, asJson);
    BodiesDiffer(body, event, Hooks(a), Hooks(b), b == [], y);
  }

  lemma BodiesDiffer(body: string, event: string, m: nat, n: nat, alone: bool, y: string)
    requires y == (if |body| + m + n != |event| then "x" else "xx") && (alone ==> n == 0)
    requires m == 0 ==> alone && body != event
    ensures (if alone then event else body + Repeat(y, n)) != body + Repeat(y, m + n)
  {
    RepeatLength(m + n);
    RepeatLength(n);
    if m == 0 { assert Repeat(y, 0) == "" && body + "" == body; }
  }

  lemma NotTransparent(a: seq<Interceptor>, b: seq<Interceptor>, event: string, h: Fields,
                       asJson: string -> Option<string>)
    requires !Transparent(a, b, event, h, asJson)
    ensures a != [] && (b == [] ==> Hooks(b) == 0)
    ensures Hooks(a) == 0 ==> b == [] && Incoming(h, event, asJson) != event
  {
    HooksOfNone(a);
  }

  lemma AppendingIgnores(y: string)
    ensures IgnoresContext(Appending(y))
  {
  }

  /** Moving a chain from a trigger to its group changes nothing, for any services that ignore the
      context, exactly when the moved part has no webhook and no converted form body is lost. */
  lemma GroupingIsTransparent(a: seq<Interceptor>, b: seq<Interceptor>, event: string, h: Fields,
                              groupCtx: Context, ctx: Context, asJson: string -> Option<string>)
    ensures Transparent(a, b, event, h, asJson) <==>
      forall sv: Services :: IgnoresContext(sv) ==>
        InGroup(a, b, event, h, groupCtx, ctx, sv, asJson) == ForTrigger(a + b, Flow(event, h, map[]), ctx, sv, asJson)
  {
    if Transparent(a, b, event, h, asJson) {
      forall sv: Services | IgnoresContext(sv)
        ensures InGroup(a, b, event, h, groupCtx, ctx, sv, asJson) ==
          ForTrigger(a + b, Flow(event, h, map[]), ctx, sv, asJson)
      {
        GroupingHolds(a, b, event, h, groupCtx, ctx, sv, asJson);
      }
    } else {
      var sv := GroupingFails(a, b, event, h, groupCtx, ctx, asJson);
    }
  }
}
