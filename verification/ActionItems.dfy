/** The startup report's list of actions, gathered from services, endpoint probes and diagnostics. */
module ActionItems {
  import opened Common
  import JsText

  datatype Status = OK | WARN | FAIL | CRITICAL

  datatype Service = Service(name: string, ok: bool)
  datatype Probe = Probe(envVar: string, status: Status, host: string, detail: string)

  // Absent texts are empty.
  datatype Diagnostic = Diagnostic(
    severity: string, envVar: string, restartRequired: bool, host: string, message: string, code: string)

  datatype Env = Env(rpcUrl: string, warmRpcUrl: string, wsUrl: string, warmWsUrl: string)

  datatype Report = Report(
    services: seq<Service>, rpcHealth: seq<Probe>, wsHealth: seq<Probe>, diagnostics: seq<Diagnostic>, env: Env)

  datatype Item = Item(severity: Status, message: string)

  // --- the meaning of the list ---------------------------------------------------------------------

  function Probes(r: Report): seq<Probe> {
    r.rpcHealth + r.wsHealth
  }

  // The variable whose probe speaks for this one: a warm URL equal to its primary has none of its own.
  function Alias(env: Env, envVar: string): string {
    if envVar == "WARM_RPC_URL" && env.warmRpcUrl != "" && env.warmRpcUrl == env.rpcUrl then "SOLANA_RPC_URL"
    else if envVar == "WARM_WS_URL" && env.warmWsUrl != "" && env.warmWsUrl == env.wsUrl then "SOLANA_WS_URL"
    else envVar
  }

  function LastProbe(probes: seq<Probe>, envVar: string): (p: Option<Probe>)
    ensures p.Some? ==> p.value in probes && p.value.envVar == envVar
    ensures p.None? ==> forall q | q in probes :: q.envVar != envVar
  {
    if probes == [] then None
    else if probes[|probes| - 1].envVar == envVar then Some(probes[|probes| - 1])
    else LastProbe(probes[..|probes| - 1], envVar)
  }

  function ProbeFor(r: Report, envVar: string): Option<Probe> {
    LastProbe(Probes(r), Alias(r.env, envVar))
  }

  // diagnosticIsCoveredByProbe
  predicate CoveredBy(d: Diagnostic, probe: Option<Probe>) {
    && d.envVar != "" && !d.restartRequired
    && probe.Some? && probe.value.status != OK
    && (d.host == "" || probe.value.host == "" || d.host == probe.value.host)
  }

  predicate Covered(r: Report, d: Diagnostic) {
    CoveredBy(d, ProbeFor(r, d.envVar))
  }

  function SeverityOf(d: Diagnostic): Status {
    var raw := JsText.Lower(if d.severity == "" then "info" else d.severity);
    if raw == "critical" || raw == "error" then CRITICAL else WARN
  }

  function ServiceItem(s: Service): Item {
    Item(CRITICAL, s.name + " is not reachable. Check its log and restart the launcher.")
  }

  function ProbeItem(p: Probe): Item {
    Item(p.status, p.envVar + (if p.host == "" then "" else " (" + p.host + ")") + ": " + p.detail)
  }

  function DiagnosticItem(d: Diagnostic): Item {
    Item(SeverityOf(d),
         (if d.envVar == "" then "" else d.envVar + ": ") +
         (if d.message != "" then d.message else if d.code != "" then d.code else "runtime diagnostic"))
  }

  function ServiceItems(services: seq<Service>): seq<Item> {
    if services == [] then []
    else
      var last := services[|services| - 1];
      ServiceItems(services[..|services| - 1]) + if last.ok then [] else [ServiceItem(last)]
  }

  function ProbeItems(probes: seq<Probe>): seq<Item> {
    if probes == [] then []
    else
      var last := probes[|probes| - 1];
      ProbeItems(probes[..|probes| - 1]) + if last.status == OK then [] else [ProbeItem(last)]
  }

  function DiagnosticItems(r: Report, diagnostics: seq<Diagnostic>): seq<Item>
    decreases |diagnostics|
  {
    if diagnostics == [] then []
    else
      var last := diagnostics[|diagnostics| - 1];
      DiagnosticItems(r, diagnostics[..|diagnostics| - 1]) + if Covered(r, last) then [] else [DiagnosticItem(last)]
  }

  function Gathered(r: Report): seq<Item> {
    ServiceItems(r.services) + ProbeItems(Probes(r)) + DiagnosticItems(r, r.diagnostics)
  }

  // Every item at its first occurrence.
  function Deduped(items: seq<Item>): seq<Item> {
    if items == [] then []
    else
      var before := Deduped(items[..|items| - 1]);
      if items[|items| - 1] in before then before else before + [items[|items| - 1]]
  }

  function Actions(r: Report): seq<Item> {
    Deduped(Gathered(r))
  }

  // --- the implementation ------------------------------------------------------------------------

  function StatusText(s: Status): string {
    match s
    case OK => "OK"
    case WARN => "WARN"
    case FAIL => "FAIL"
    case CRITICAL => "CRITICAL"
  }

  function Key(item: Item): string {
    StatusText(item.severity) + ":" + item.message
  }

  // A status holds no colon, so the key tells items apart.
  lemma KeyInjective(a: Item, b: Item)
    requires Key(a) == Key(b)
    ensures a == b
  {
    var n, m := |StatusText(a.severity)|, |StatusText(b.severity)|;
    assert Key(a)[n] == ':' && Key(b)[m] == ':';
    assert forall i | 0 <= i < n :: Key(a)[i] == StatusText(a.severity)[i] != ':';
    assert forall i | 0 <= i < m :: Key(b)[i] == StatusText(b.severity)[i] != ':';
    assert n == m;
    assert a.message == Key(a)[n + 1..] && b.message == Key(b)[m + 1..];
    assert Key(a)[0] == StatusText(a.severity)[0] && Key(b)[0] == StatusText(b.severity)[0];
  }

  lemma {:induction false} LastProbeAppend(probes: seq<Probe>, p: Probe, envVar: string)
    ensures LastProbe(probes + [p], envVar) == if p.envVar == envVar then Some(p) else LastProbe(probes, envVar)
  {
    assert (probes + [p])[..|probes + [p]| - 1] == probes;
  }

  // What a map lookup yields; a key may be bound to nothing.
  function Lookup(m: map<string, Option<Probe>>, envVar: string): Option<Probe> {
    if envVar in m then m[envVar] else None
  }

  method ProbeMap(r: Report) returns (probes: map<string, Option<Probe>>)
    ensures forall envVar :: Lookup(probes, envVar) == ProbeFor(r, envVar)
  {
    probes := map[];
    var all := r.rpcHealth + r.wsHealth;
    var i := 0;
    while i < |all|
      invariant 0 <= i <= |all|
      invariant forall envVar :: Lookup(probes, envVar) == LastProbe(all[..i], envVar)
    {
      ghost var before := probes;
      probes := probes[all[i].envVar := Some(all[i])];
      assert all[..i + 1] == all[..i] + [all[i]];
      forall envVar ensures Lookup(probes, envVar) == LastProbe(all[..i + 1], envVar) {
        LastProbeAppend(all[..i], all[i], envVar);
        assert Lookup(before, envVar) == LastProbe(all[..i], envVar);
      }
      i := i + 1;
    }
    assert all[..i] == Probes(r);
    if r.env.warmRpcUrl != "" && r.env.warmRpcUrl == r.env.rpcUrl {
      probes := probes["WARM_RPC_URL" := Lookup(probes, "SOLANA_RPC_URL")];
    }
    if r.env.warmWsUrl != "" && r.env.warmWsUrl == r.env.wsUrl {
      probes := probes["WARM_WS_URL" := Lookup(probes, "SOLANA_WS_URL")];
    }
  }

  method DedupeActions(items: seq<Item>) returns (kept: seq<Item>)
    ensures kept == Deduped(items)
  {
    kept := [];
    var seen: set<string> := {};
    var i := 0;
    while i < |items|
      invariant 0 <= i <= |items|
      invariant kept == Deduped(items[..i])
      invariant forall item | item in kept :: Key(item) in seen
      invariant forall key | key in seen :: exists item | item in kept :: Key(item) == key
    {
      var key := Key(items[i]);
      assert items[..i + 1][..i] == items[..i];
      if key !in seen {
        seen := seen + {key};
        kept := kept + [items[i]];
      } else {
        var item :| item in kept && Key(item) == key;
        KeyInjective(item, items[i]);
      }
      i := i + 1;
    }
    assert items[..i] == items;
  }

  method ActionItems(r: Report) returns (actions: seq<Item>)
    ensures actions == Actions(r)
  {
    hide ServiceItem, ProbeItem, DiagnosticItem, CoveredBy, ProbeFor, Deduped;
    var items := [];
    var probes := ProbeMap(r);
    var i := 0;
    while i < |r.services|
      invariant 0 <= i <= |r.services|
      invariant items == ServiceItems(r.services[..i])
    {
      assert r.services[..i + 1][..i] == r.services[..i];
      if !r.services[i].ok {
        items := items + [ServiceItem(r.services[i])];
      }
      i := i + 1;
    }
    assert r.services[..i] == r.services;
    ghost var before := items;
    var all := r.rpcHealth + r.wsHealth;
    i := 0;
    while i < |all|
      invariant 0 <= i <= |all|
      invariant items == before + ProbeItems(all[..i])
    {
      assert all[..i + 1][..i] == all[..i];
      if all[i].status == WARN || all[i].status == FAIL || all[i].status == CRITICAL {
        items := items + [ProbeItem(all[i])];
      }
      i := i + 1;
    }
    assert all[..i] == Probes(r);
    before := items;
    i := 0;
    while i < |r.diagnostics|
      invariant 0 <= i <= |r.diagnostics|
      invariant items == before + DiagnosticItems(r, r.diagnostics[..i])
    {
      assert r.diagnostics[..i + 1][..i] == r.diagnostics[..i];
      var d := r.diagnostics[i];
      if !CoveredBy(d, Lookup(probes, d.envVar)) {
        items := items + [DiagnosticItem(d)];
      }
      i := i + 1;
    }
    assert r.diagnostics[..i] == r.diagnostics;
    actions := DedupeActions(items);
  }

  // --- removing repeats ----------------------------------------------------------------------------

  // a is b with some items left out, in the same order.
  predicate Subsequence(a: seq<Item>, b: seq<Item>) {
    a == [] || (b != [] && (Subsequence(a, b[..|b| - 1]) ||
                            (a[|a| - 1] == b[|b| - 1] && Subsequence(a[..|a| - 1], b[..|b| - 1]))))
  }

  // Removing repeats keeps every item once, in order.
  lemma {:induction false} DedupedExact(items: seq<Item>)
    ensures var kept := Deduped(items);
            && (forall item :: item in kept <==> item in items)
            && (forall i, j | 0 <= i < j < |kept| :: Key(kept[i]) != Key(kept[j]))
            && Subsequence(kept, items)
  {
    hide Key;
    if items != [] {
      var front, last := items[..|items| - 1], items[|items| - 1];
      DedupedExact(front);
      assert items == front + [last];
      var before := Deduped(front);
      var kept := Deduped(items);
      if last !in before {
        assert kept[..|kept| - 1] == before;
        forall i | 0 <= i < |before| ensures Key(kept[i]) != Key(last) {
          if Key(kept[i]) == Key(last) {
            KeyInjective(kept[i], last);
          }
        }
      }
    }
  }

  // Which occurrence is kept: what comes before an item decides, what comes after never does.
  lemma {:induction false} DedupedPrefix(items: seq<Item>, more: seq<Item>)
    ensures Deduped(items) <= Deduped(items + more)
    decreases |more|
  {
    if more == [] {
      assert items + more == items;
    } else {
      DedupedPrefix(items, more[..|more| - 1]);
      assert (items + more)[..|items + more| - 1] == items + more[..|more| - 1];
    }
  }

  // A list without repeats is left alone.
  lemma {:induction false} DedupedFixed(items: seq<Item>)
    requires forall i, j | 0 <= i < j < |items| :: items[i] != items[j]
    ensures Deduped(items) == items
  {
    if items != [] {
      DedupedFixed(items[..|items| - 1]);
    }
  }

  lemma {:induction false} DedupedTwice(items: seq<Item>)
    ensures Deduped(Deduped(items)) == Deduped(items)
  {
    hide Deduped;
    DedupedExact(items);
    DedupedFixed(Deduped(items));
  }

  // --- nothing is lost and nothing is made up ----------------------------------------------------

  lemma {:induction false} ServiceItemsExact(services: seq<Service>, item: Item)
    ensures item in ServiceItems(services) <==> exists s | s in services :: !s.ok && item == ServiceItem(s)
  {
    hide ServiceItem;
    if services != [] {
      ServiceItemsExact(services[..|services| - 1], item);
      assert services == services[..|services| - 1] + [services[|services| - 1]];
    }
  }

  lemma {:induction false} ProbeItemsExact(probes: seq<Probe>, item: Item)
    ensures item in ProbeItems(probes) <==> exists p | p in probes :: p.status != OK && item == ProbeItem(p)
  {
    hide ProbeItem;
    if probes != [] {
      ProbeItemsExact(probes[..|probes| - 1], item);
      assert probes == probes[..|probes| - 1] + [probes[|probes| - 1]];
    }
  }

  lemma {:induction false} DiagnosticItemsExact(r: Report, ds: seq<Diagnostic>, item: Item)
    ensures item in DiagnosticItems(r, ds) <==> exists d | d in ds :: !Covered(r, d) && item == DiagnosticItem(d)
    decreases |ds|
  {
    hide DiagnosticItem, Covered;
    if ds != [] {
      DiagnosticItemsExact(r, ds[..|ds| - 1], item);
      assert ds == ds[..|ds| - 1] + [ds[|ds| - 1]];
    }
  }

  // The list holds an item exactly when an unreachable service, a probe that is not OK, or a
  // diagnostic that no probe covers calls for it.
  lemma ActionsExact(r: Report, item: Item)
    ensures item in Actions(r) <==>
              || (exists s | s in r.services :: !s.ok && item == ServiceItem(s))
              || (exists p | p in Probes(r) :: p.status != OK && item == ProbeItem(p))
              || (exists d | d in r.diagnostics :: !Covered(r, d) && item == DiagnosticItem(d))
  {
    hide Deduped, ServiceItem, ProbeItem, DiagnosticItem, Covered, Probes, ServiceItems, ProbeItems, DiagnosticItems;
    DedupedExact(Gathered(r));
    ServiceItemsExact(r.services, item);
    ProbeItemsExact(Probes(r), item);
    DiagnosticItemsExact(r, r.diagnostics, item);
  }

  // No diagnostic is lost: its own item is listed, or that of a failing probe of its variable (or
  // of the primary that a warm variable repeats) on a compatible host is.
  lemma NoDiagnosticLost(r: Report, d: Diagnostic)
    requires d in r.diagnostics
    ensures DiagnosticItem(d) in Actions(r) ||
            exists p | p in Probes(r) ::
              && ProbeItem(p) in Actions(r) && p.status != OK && p.envVar == Alias(r.env, d.envVar)
              && (d.host == "" || p.host == "" || d.host == p.host) && !d.restartRequired
  {
    hide Actions, DiagnosticItem, ProbeItem;
    if Covered(r, d) {
      ActionsExact(r, ProbeItem(ProbeFor(r, d.envVar).value));
    } else {
      ActionsExact(r, DiagnosticItem(d));
    }
  }

  // The whole list: no two items share a key, the order is that of gathering, and it is as
  // complete as the gathered list.
  lemma ListIsClean(r: Report)
    ensures var actions := Actions(r);
            && (forall i, j | 0 <= i < j < |actions| :: Key(actions[i]) != Key(actions[j]))
            && Subsequence(actions, Gathered(r))
            && (forall item :: item in actions <==> item in Gathered(r))
            && Deduped(ServiceItems(r.services)) <= actions
  {
    hide Deduped, Key, Subsequence, Gathered;
    DedupedExact(Gathered(r));
    ServicesFirst(r);
  }

  lemma ServicesFirst(r: Report)
    ensures Deduped(ServiceItems(r.services)) <= Deduped(Gathered(r))
  {
    hide Deduped, ServiceItems, ProbeItems, DiagnosticItems;
    DedupedPrefix(ServiceItems(r.services), ProbeItems(Probes(r)) + DiagnosticItems(r, r.diagnostics));
    assert ServiceItems(r.services) + (ProbeItems(Probes(r)) + DiagnosticItems(r, r.diagnostics)) == Gathered(r);
  }

  // --- where the statuses come from ----------------------------------------------------------------

  // What connecting to one endpoint found.
  datatype Outcome = Outcome(works: bool, host: string, detail: string)

  // probeHttpRpc and probeWebSocket
  function ProbeEndpoint(envVar: string, url: string, found: Outcome): Probe {
    if url == "" then Probe(envVar, WARN, "", "not set")
    else Probe(envVar, if found.works then OK else FAIL, found.host, found.detail)
  }

  // probeWsHealth, for the trimmed URLs.
  function WsHealth(url: string, warmUrl: string, primaryFound: Outcome, warmFound: Outcome): seq<Probe> {
    var primary := ProbeEndpoint("SOLANA_WS_URL", url, primaryFound);
    if warmUrl != "" && warmUrl == url then
      [if primary.status == FAIL then primary.(status := CRITICAL) else primary]
    else
      var tried := ProbeEndpoint("WARM_WS_URL", warmUrl, warmFound);
      var warm :=
        if warmUrl == "" then
          Probe("WARM_WS_URL", if primary.status == OK then OK else WARN, primary.host, "not set, using primary")
        else if tried.status == FAIL && primary.status == OK then
          tried.(status := WARN, detail := tried.detail + ", optional warm WS unavailable; primary remains active")
        else tried;
      [if primary.status == FAIL && (warmUrl == "" || warm.status == FAIL) then primary.(status := CRITICAL)
       else primary, warm]
  }

  // A primary socket that fails is listed as critical exactly when no other socket works, and
  // as failed otherwise: the other severity is listed only if something else says just that.
  lemma DeadSocketReported(r: Report, url: string, warmUrl: string, primaryFound: Outcome, warmFound: Outcome)
    requires r.wsHealth == WsHealth(url, warmUrl, primaryFound, warmFound)
    requires url != "" && !primaryFound.works
    ensures var alone := warmUrl == "" || warmUrl == url || !warmFound.works;
            var dead := Probe("SOLANA_WS_URL", FAIL, primaryFound.host, primaryFound.detail);
            var right, wrong := if alone then CRITICAL else FAIL, if alone then FAIL else CRITICAL;
            && (forall p | p in r.wsHealth && p.envVar == "SOLANA_WS_URL" :: p == dead.(status := right))
            && ProbeItem(dead.(status := right)) in Actions(r)
            && (ProbeItem(dead.(status := wrong)) in Actions(r) ==>
                  || (exists s | s in r.services :: ServiceItem(s) == ProbeItem(dead.(status := wrong)))
                  || (exists p | p in r.rpcHealth :: ProbeItem(p) == ProbeItem(dead.(status := wrong)))
                  || (exists d | d in r.diagnostics :: DiagnosticItem(d) == ProbeItem(dead.(status := wrong))))
  {
    hide Actions, ProbeItem, ServiceItem, DiagnosticItem, Covered;
    var alone := warmUrl == "" || warmUrl == url || !warmFound.works;
    var p := r.wsHealth[0];
    assert p in Probes(r);
    ActionsExact(r, ProbeItem(p));
    var wrong := p.(status := if alone then FAIL else CRITICAL);
    ActionsExact(r, ProbeItem(wrong));
    forall q | q in r.wsHealth ensures ProbeItem(q) != ProbeItem(wrong) {
      ProbeItemApart(q, wrong);
    }
  }

  lemma ProbeItemApart(q: Probe, p: Probe)
    requires q.status != p.status || (q.envVar == "WARM_WS_URL" && p.envVar == "SOLANA_WS_URL")
    ensures ProbeItem(q) != ProbeItem(p)
  {
    if q.status == p.status {
      assert ProbeItem(q).message[0] == 'W' && ProbeItem(p).message[0] == 'S';
    }
  }

  // --- what an item says ---------------------------------------------------------------------------

  // An uncovered diagnostic is listed as critical exactly when it is critical or an error, as a
  // warning otherwise; its item says its message, or else its code, after its variable.
  lemma DiagnosticListed(r: Report, d: Diagnostic)
    requires d in r.diagnostics && (d.envVar == "" || d.restartRequired || ProbeFor(r, d.envVar).None?)
    ensures exists item | item in Actions(r) ::
              && (item.severity == CRITICAL <==> JsText.Lower(d.severity) in {"critical", "error"})
              && (item.severity == WARN <==> JsText.Lower(d.severity) !in {"critical", "error"})
              && item.message ==
                 (if d.envVar == "" then "" else d.envVar + ": ") +
                 (if d.message != "" then d.message else if d.code != "" then d.code else "runtime diagnostic")
  {
    hide Actions, ProbeFor;
    ActionsExact(r, DiagnosticItem(d));
    DefaultSeverity();
  }

  lemma DefaultSeverity()
    ensures JsText.Lower("") == "" && JsText.Lower("info") == "info"
  {
  }

  // A failing probe is listed with its own status, host and detail; an unreachable service as
  // critical; and none of those that are well.
  lemma ProbeListed(r: Report, p: Probe)
    requires p in r.rpcHealth + r.wsHealth && p.status != OK
    ensures p.host == "" ==> Item(p.status, p.envVar + ": " + p.detail) in Actions(r)
    ensures p.host != "" ==> Item(p.status, p.envVar + " (" + p.host + "): " + p.detail) in Actions(r)
  {
    hide Actions;
    ActionsExact(r, ProbeItem(p));
    assert p.envVar + "" + ": " + p.detail == p.envVar + ": " + p.detail;
    assert p.envVar + (" (" + p.host + ")") + ": " + p.detail == p.envVar + " (" + p.host + "): " + p.detail;
  }

  lemma ServiceListed(r: Report, s: Service)
    requires s in r.services && !s.ok
    ensures Item(CRITICAL, s.name + " is not reachable. Check its log and restart the launcher.") in Actions(r)
  {
    hide Actions;
    ActionsExact(r, ServiceItem(s));
  }

  // A diagnostic is covered exactly when it names a variable, needs no restart, and the last probe
  // of that variable - of the primary, if the warm URL repeats it - is not OK, on the same host if both
  // name one.
  lemma CoveredExactly(r: Report, d: Diagnostic, last: nat)
    requires var probes := r.rpcHealth + r.wsHealth;
             var repeats := (d.envVar == "WARM_RPC_URL" && r.env.warmRpcUrl == r.env.rpcUrl != "")
                            || (d.envVar == "WARM_WS_URL" && r.env.warmWsUrl == r.env.wsUrl != "");
             var name := if !repeats then d.envVar
                         else if d.envVar == "WARM_RPC_URL" then "SOLANA_RPC_URL" else "SOLANA_WS_URL";
             && last < |probes| && probes[last].envVar == name
             && forall j | last < j < |probes| :: probes[j].envVar != name
    ensures var p := (r.rpcHealth + r.wsHealth)[last];
            Covered(r, d) <==>
              && d.envVar != "" && !d.restartRequired && p.status != OK
              && (d.host == "" || p.host == "" || d.host == p.host)
  {
    LastProbeAt(r.rpcHealth + r.wsHealth, last);
  }

  lemma {:induction false} LastProbeAt(probes: seq<Probe>, last: nat)
    requires last < |probes| && forall j | last < j < |probes| :: probes[j].envVar != probes[last].envVar
    ensures LastProbe(probes, probes[last].envVar) == Some(probes[last])
  {
    if last < |probes| - 1 {
      LastProbeAt(probes[..|probes| - 1], last);
    }
  }

  // The socket probes in every case: the primary is OK if it works, a warning if it has no URL,
  // and critical if it fails with no working warm socket; the warm one fails like the primary
  // does, is a warning if only it fails, and speaks for the primary if it has no URL.
  lemma SocketProbes(url: string, warmUrl: string, primaryFound: Outcome, warmFound: Outcome)
    ensures var probes := WsHealth(url, warmUrl, primaryFound, warmFound);
            var alone := warmUrl == "" || warmUrl == url || !warmFound.works;
            var primary := if url == "" then Probe("SOLANA_WS_URL", WARN, "", "not set")
                           else Probe("SOLANA_WS_URL",
                                      if primaryFound.works then OK else if alone then CRITICAL else FAIL,
                                      primaryFound.host, primaryFound.detail);
            var note := ", optional warm WS unavailable; primary remains active";
            var up := url != "" && primaryFound.works;
            && (warmUrl != "" && warmUrl == url ==> probes == [primary])
            && (warmUrl == "" ==>
                  probes == [primary, Probe("WARM_WS_URL", if up then OK else WARN, primary.host,
                                            "not set, using primary")])
            && (warmUrl != "" && warmUrl != url && warmFound.works ==>
                  probes == [primary, Probe("WARM_WS_URL", OK, warmFound.host, warmFound.detail)])
            && (warmUrl != "" && warmUrl != url && !warmFound.works && up ==>
                  probes == [primary, Probe("WARM_WS_URL", WARN, warmFound.host, warmFound.detail + note)])
            && (warmUrl != "" && warmUrl != url && !warmFound.works && !up ==>
                  probes == [primary, Probe("WARM_WS_URL", FAIL, warmFound.host, warmFound.detail)])
  {
  }
}
