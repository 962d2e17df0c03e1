/** The routing table the proxy polls: eligible nodes and each route's allow list (app/api/proxy_api.py). */
module RoutingTable {
  import opened AsciiText
  import opened Sorting

  // ---------------------------------------------------------------- addresses

  const MGMT_PREFIX := "10.99."
  const DATA_PREFIX := "10.98."

  /** The wg-data address of a node from its wg-mgmt address; a missing address is the empty string. */
  function DeriveDataIp(mgmtIp: string): string {
    var s := Strip(mgmtIp);
    if MGMT_PREFIX <= s then DATA_PREFIX + s[|MGMT_PREFIX|..] else ""
  }

  /** An address outside the management pool gets none, and addresses in the pool stay distinct. */
  lemma DeriveInjective(a: string, b: string)
    ensures DeriveDataIp(a) == "" <==> !(MGMT_PREFIX <= Strip(a))
    ensures DeriveDataIp(a) == DeriveDataIp(b) != "" ==> Strip(a) == Strip(b)
  {
    hide Strip;
    var (s, t) := (Strip(a), Strip(b));
    if DeriveDataIp(a) == DeriveDataIp(b) != "" {
      assert s == MGMT_PREFIX + (DATA_PREFIX + s[6..])[6..];
      assert t == MGMT_PREFIX + (DATA_PREFIX + t[6..])[6..];
    }
  }

  // ---------------------------------------------------------------- nodes and routes

  datatype Node = Node(
    id: int, name: string, publicIp: string, mgmtIp: string, enabled: bool, drain: bool, status: string)

  /** Where a route's RADIUS requests go. */
  datatype Target = Target(customerId: int, ip: string, authPort: int, acctPort: int)

  datatype Route = Route(realm: string, status: string, target: Target, secretRef: string, allowedNodes: seq<int>)

  datatype Published = Published(realm: string, target: Target, secret: string, allowedIps: seq<string>)

  /** A customer's secret by its reference; empty when the vault has none. */
  type Vault = (int, string) -> string

  function ResolveSecret(vault: Vault, r: Route): string {
    if r.secretRef == "" then "" else vault(r.target.customerId, r.secretRef)
  }

  predicate Eligible(n: Node) {
    n.enabled && !n.drain && n.status != "disabled"
  }

  /** No two nodes of the registry share an id. */
  predicate DistinctIds(nodes: seq<Node>) {
    forall i, j :: 0 <= i < j < |nodes| ==> nodes[i].id != nodes[j].id
  }

  function Select<T>(s: seq<T>, p: T -> bool): seq<T> {
    if s == [] then [] else (if p(s[0]) then [s[0]] else []) + Select(s[1..], p)
  }

  lemma {:induction false} SelectHolds<T>(s: seq<T>, p: T -> bool, x: T)
    ensures x in Select(s, p) <==> x in s && p(x)
  {
    if s != [] {
      SelectHolds(s[1..], p, x);
    }
  }

  /** The addresses a node adds to an allow list, either of which may be empty. */
  function Addresses(n: Node): seq<string> {
    [n.publicIp, DeriveDataIp(n.mgmtIp)]
  }

  function Lookup(nodes: seq<Node>, id: int): seq<Node> {
    if nodes == [] then [] else if nodes[0].id == id then [nodes[0]] else Lookup(nodes[1..], id)
  }

  /** All addresses of the listed eligible nodes, in list order, repeats and empties included. */
  function Candidates(eligible: seq<Node>, ids: seq<int>): seq<string> {
    if ids == [] then []
    else
      Candidates(eligible, ids[..|ids| - 1]) +
      (var found := Lookup(eligible, ids[|ids| - 1]); if found == [] then [] else Addresses(found[0]))
  }

  function Push(ips: seq<string>, ip: string): seq<string> {
    if ip != "" && ip !in ips then ips + [ip] else ips
  }

  /** The first occurrence of every address that is not empty, in order. */
  function Dedup(s: seq<string>): seq<string> {
    if s == [] then [] else Push(Dedup(s[..|s| - 1]), s[|s| - 1])
  }

  function AllowedIps(nodes: seq<Node>, ids: seq<int>): seq<string> {
    Dedup(Candidates(Select(nodes, Eligible), ids))
  }

  predicate IsActive(r: Route) {
    r.status == "active"
  }

  predicate RealmBefore(a: Route, b: Route) {
    Precedes(a.realm, b.realm)
  }

  /** A route as it is published. */
  function Entry(r: Route, nodes: seq<Node>, vault: Vault): Published {
    Published(r.realm, r.target, ResolveSecret(vault, r), AllowedIps(nodes, r.allowedNodes))
  }

  /** The published routes: the active ones in realm order, each with its allow list. */
  function Publish(routes: seq<Route>, nodes: seq<Node>, vault: Vault): (out: seq<Published>)
    ensures |out| == |Sort(RealmBefore, Select(routes, IsActive))|
  {
    var active := Sort(RealmBefore, Select(routes, IsActive));
    seq(|active|, i requires 0 <= i < |active| => Entry(active[i], nodes, vault))
  }

  method PushInto(ips: seq<string>, seen: set<string>, ip: string) returns (ips': seq<string>, seen': set<string>)
    requires seen == set x | x in ips
    ensures ips' == Push(ips, ip) && seen' == set x | x in ips'
  {
    ips', seen' := ips, seen;
    if ip != "" && ip !in seen {
      ips' := ips + [ip];
      seen' := seen + {ip};
    }
  }

  method RouteAllowList(eligible: seq<Node>, ids: seq<int>) returns (ips: seq<string>)
    ensures ips == Dedup(Candidates(eligible, ids))
  {
    ips := [];
    var seen: set<string> := {};
    for i := 0 to |ids|
      invariant ips == Dedup(Candidates(eligible, ids[..i]))
      invariant seen == set x | x in ips
    {
      assert ids[..i + 1][..i] == ids[..i];
      var found := Lookup(eligible, ids[i]);
      if found != [] {
        DedupTwo(Candidates(eligible, ids[..i]), found[0].publicIp, DeriveDataIp(found[0].mgmtIp));
        ips, seen := PushInto(ips, seen, found[0].publicIp);
        ips, seen := PushInto(ips, seen, DeriveDataIp(found[0].mgmtIp));
      } else {
        assert Candidates(eligible, ids[..i + 1]) == Candidates(eligible, ids[..i]);
      }
    }
    assert ids[..|ids|] == ids;
  }

  method BuildRoutingTable(routes: seq<Route>, nodes: seq<Node>, vault: Vault) returns (out: seq<Published>)
    ensures out == Publish(routes, nodes, vault)
  {
    hide Select, Sort, Dedup, Candidates, RealmBefore;
    var active := Sort(RealmBefore, Select(routes, IsActive));
    var eligible := Select(nodes, Eligible);
    out := [];
    for i := 0 to |active|
      invariant out == Publish(routes, nodes, vault)[..i]
    {
      var secret := ResolveSecret(vault, active[i]);
      var ips := RouteAllowList(eligible, active[i].allowedNodes);
      out := out + [Published(active[i].realm, active[i].target, secret, ips)];
    }
  }

  // ---------------------------------------------------------------- an allow list has no repeats and keeps order

  lemma DedupTwo(s: seq<string>, a: string, b: string)
    ensures Dedup(s + [a, b]) == Push(Push(Dedup(s), a), b)
  {
    assert (s + [a, b])[..|s| + 1] == s + [a];
    assert (s + [a])[..|s|] == s;
  }

  /** The first place of `x` in `s`, or the length of `s`. */
  function FirstIndex(s: seq<string>, x: string): (n: nat)
    ensures n <= |s|
    ensures n < |s| <==> x in s
    ensures n < |s| ==> s[n] == x
    ensures forall i :: 0 <= i < n ==> s[i] != x
  {
    if s == [] || s[0] == x then 0 else 1 + FirstIndex(s[1..], x)
  }

  /** `Dedup` lists exactly the addresses of `s`, each once, in the order of their first occurrences. */
  lemma {:induction false} DedupExact(s: seq<string>)
    ensures forall x :: x in Dedup(s) <==> x in s && x != ""
    ensures forall i, j :: 0 <= i < j < |Dedup(s)| ==> FirstIndex(s, Dedup(s)[i]) < FirstIndex(s, Dedup(s)[j])
  {
    if s != [] {
      var (prefix, last) := (s[..|s| - 1], s[|s| - 1]);
      DedupExact(prefix);
      assert s == prefix + [last];
      var d := Dedup(prefix);
      assert Dedup(s) == Push(d, last);
      hide Dedup, FirstIndex;
      forall x | x in prefix ensures FirstIndex(s, x) == FirstIndex(prefix, x) < |prefix| {
        FirstIndexPrefix(prefix, last, x);
      }
      if last !in prefix {
        assert FirstIndex(s, last) >= |prefix| by {
          FirstIndexNew(prefix, last);
        }
      }
      assert forall i :: 0 <= i < |d| ==> d[i] in d;
    }
  }

  lemma FirstIndexPrefix(s: seq<string>, last: string, x: string)
    requires x in s
    ensures FirstIndex(s + [last], x) == FirstIndex(s, x) < |s|
  {
    var n := FirstIndex(s, x);
    assert (s + [last])[n] == x;
  }

  lemma FirstIndexNew(s: seq<string>, last: string)
    requires last !in s
    ensures FirstIndex(s + [last], last) == |s|
  {
    assert (s + [last])[|s|] == last;
  }

  // ---------------------------------------------------------------- who is on an allow list

  /** Some eligible node on the list has this address. */
  ghost predicate Contributes(nodes: seq<Node>, ids: seq<int>, ip: string) {
    exists n :: n in nodes && Eligible(n) && n.id in ids && ip in Addresses(n)
  }

  lemma {:induction false} LookupFinds(nodes: seq<Node>, id: int)
    requires DistinctIds(nodes)
    ensures forall n :: n in nodes && n.id == id <==> Lookup(nodes, id) == [n]
    ensures Lookup(nodes, id) == [] || exists n :: Lookup(nodes, id) == [n]
  {
    if nodes != [] {
      assert nodes == [nodes[0]] + nodes[1..];
      LookupFinds(nodes[1..], id);
      if nodes[0].id == id {
        assert forall n :: n in nodes[1..] ==> n.id != id;
      }
    }
  }

  lemma {:induction false} CandidatesHold(eligible: seq<Node>, ids: seq<int>, ip: string)
    requires DistinctIds(eligible)
    ensures ip in Candidates(eligible, ids) <==> exists n :: n in eligible && n.id in ids && ip in Addresses(n)
  {
    hide *;
    if ids == [] {
      NoCandidates(eligible);
    } else {
      var (prefix, last) := (ids[..|ids| - 1], ids[|ids| - 1]);
      CandidatesHold(eligible, prefix, ip);
      LookupFinds(eligible, last);
      CandidatesStep(eligible, ids, ip);
      assert ids == prefix + [last];
      if n :| n in eligible && n.id == last {
        assert Lookup(eligible, last) == [n];
      }
    }
  }

  lemma NoCandidates(eligible: seq<Node>)
    ensures Candidates(eligible, []) == []
  {
  }

  lemma CandidatesStep(eligible: seq<Node>, ids: seq<int>, ip: string)
    requires ids != []
    ensures ip in Candidates(eligible, ids) <==>
      || ip in Candidates(eligible, ids[..|ids| - 1])
      || (Lookup(eligible, ids[|ids| - 1]) != [] && ip in Addresses(Lookup(eligible, ids[|ids| - 1])[0]))
  {
    hide Lookup, Addresses;
  }

  lemma {:induction false} SelectDistinct(nodes: seq<Node>)
    requires DistinctIds(nodes)
    ensures DistinctIds(Select(nodes, Eligible))
  {
    if nodes != [] {
      SelectDistinct(nodes[1..]);
      var rest := Select(nodes[1..], Eligible);
      forall j | 0 <= j < |rest| ensures rest[j].id != nodes[0].id {
        SelectHolds(nodes[1..], Eligible, rest[j]);
      }
    }
  }

  /** An address is allowed exactly when an eligible node on the list contributes it. */
  lemma AllowedIff(nodes: seq<Node>, ids: seq<int>, ip: string)
    requires DistinctIds(nodes)
    ensures ip in AllowedIps(nodes, ids) <==> ip != "" && Contributes(nodes, ids, ip)
  {
    var eligible := Select(nodes, Eligible);
    DedupExact(Candidates(eligible, ids));
    SelectDistinct(nodes);
    CandidatesHold(eligible, ids, ip);
    forall n ensures n in eligible <==> n in nodes && Eligible(n) {
      SelectHolds(nodes, Eligible, n);
    }
  }

  /**
   * When one node stops being eligible, an allow list loses exactly the addresses no other eligible node
   * on the list contributes.
   */
  lemma LosingANode(nodes: seq<Node>, k: nat, changed: Node, ids: seq<int>, ip: string)
    requires DistinctIds(nodes) && k < |nodes| && Eligible(nodes[k])
    requires changed.id == nodes[k].id && !Eligible(changed)
    ensures ip in AllowedIps(nodes, ids) && ip !in AllowedIps(nodes[k := changed], ids) <==>
      && ip != "" && nodes[k].id in ids && ip in Addresses(nodes[k])
      && !exists n :: n in nodes && n != nodes[k] && Eligible(n) && n.id in ids && ip in Addresses(n)
  {
    var nodes' := nodes[k := changed];
    AllowedIff(nodes, ids, ip);
    AllowedIff(nodes', ids, ip);
    hide AllowedIps, Addresses;
    forall n | Eligible(n) ensures n in nodes' <==> n in nodes && n != nodes[k] {
      if n in nodes' {
        var i :| 0 <= i < |nodes'| && nodes'[i] == n;
        assert i != k && nodes[i] == n;
      }
      if n in nodes && n != nodes[k] {
        var i :| 0 <= i < |nodes| && nodes[i] == n;
        assert nodes'[i] == n;
      }
    }
  }

  // ---------------------------------------------------------------- which routes are published

  /** The realm column is unique. */
  predicate DistinctRealms(routes: seq<Route>) {
    forall i, j :: 0 <= i < j < |routes| ==> routes[i].realm != routes[j].realm
  }

  /** Exactly the active routes are published, each with its own allow list and in strict realm order. */
  lemma PublishedExactly(routes: seq<Route>, nodes: seq<Node>, vault: Vault)
    requires DistinctRealms(routes)
    ensures forall p :: p in Publish(routes, nodes, vault) <==>
      exists r :: r in routes && IsActive(r) && p == Entry(r, nodes, vault)
    ensures forall i, j :: 0 <= i < j < |Publish(routes, nodes, vault)| ==>
      Precedes(Publish(routes, nodes, vault)[i].realm, Publish(routes, nodes, vault)[j].realm)
  {
    ActiveInOrder(routes);
    var active := Sort(RealmBefore, Select(routes, IsActive));
    var out := Publish(routes, nodes, vault);
    hide AllowedIps, ResolveSecret, Select, Sort, Precedes, IsActive;
    forall p ensures p in out <==> exists r :: r in active && p == Entry(r, nodes, vault) {
      if r :| r in active && p == Entry(r, nodes, vault) {
        var i :| 0 <= i < |active| && active[i] == r;
        assert out[i] == p;
      }
    }
    forall i, j | 0 <= i < j < |out| ensures Precedes(out[i].realm, out[j].realm) {
      assert RealmBefore(active[i], active[j]);
    }
  }

  lemma ActiveInOrder(routes: seq<Route>)
    requires DistinctRealms(routes)
    ensures var active := Sort(RealmBefore, Select(routes, IsActive));
      Sorted(RealmBefore, active) && forall r :: r in active <==> r in routes && IsActive(r)
  {
    var chosen := Select(routes, IsActive);
    SelectRealms(routes, IsActive);
    forall r ensures r in chosen <==> r in routes && IsActive(r) {
      SelectHolds(routes, IsActive, r);
    }
    RealmBeforeStrict();
    hide Select, IsActive, Precedes;
    forall i, j | 0 <= i < j < |chosen| ensures RealmBefore(chosen[i], chosen[j]) || RealmBefore(chosen[j], chosen[i]) {
      if !Precedes(chosen[i].realm, chosen[j].realm) {
        PrecedesTotal(chosen[i].realm, chosen[j].realm);
      }
    }
    SortSorted(RealmBefore, chosen);
  }

  lemma {:induction false} SelectRealms(routes: seq<Route>, p: Route -> bool)
    requires DistinctRealms(routes)
    ensures DistinctRealms(Select(routes, p))
  {
    if routes != [] {
      SelectRealms(routes[1..], p);
      var rest := Select(routes[1..], p);
      forall j | 0 <= j < |rest| ensures rest[j].realm != routes[0].realm {
        SelectHolds(routes[1..], p, rest[j]);
      }
    }
  }

  lemma RealmBeforeStrict()
    ensures StrictOrder(RealmBefore)
  {
    forall a, b | RealmBefore(a, b) ensures !RealmBefore(b, a) {
      PrecedesAsymmetric(a.realm, b.realm);
    }
    forall a, b, c | RealmBefore(a, b) && RealmBefore(b, c) ensures RealmBefore(a, c) {
      PrecedesTransitive(a.realm, b.realm, c.realm);
    }
  }

  // ---------------------------------------------------------------- the published table, written out

  /** The wg-data address is the wg-mgmt one with its first two numbers changed, and everything after kept. */
  lemma DeriveExact(rest: string, mgmtIp: string)
    ensures Strip(mgmtIp) == "10.99." + rest ==> DeriveDataIp(mgmtIp) == "10.98." + rest
  {
    hide Strip;
    assert ("10.99." + rest)[6..] == rest;
  }

  /** The node may be used: it is enabled, not draining and not disabled. */
  predicate Usable(n: Node) {
    n.enabled && !n.drain && n.status != "disabled"
  }

  /**
   * The address slots of an allow list, two for each listed node: its public address, then its wg-data one. A
   * slot is empty where the node is unknown or not usable, or has no such address.
   */
  ghost predicate SlotHolds(nodes: seq<Node>, ids: seq<int>, slot: nat, ip: string)
    requires slot < 2 * |ids|
  {
    exists n :: n in nodes && n.id == ids[slot / 2] && Usable(n) &&
      ip == if slot % 2 == 0 then n.publicIp else DeriveDataIp(n.mgmtIp)
  }

  /** The first slot that holds the address. */
  ghost predicate FirstSlot(nodes: seq<Node>, ids: seq<int>, slot: nat, ip: string) {
    && slot < 2 * |ids| && SlotHolds(nodes, ids, slot, ip)
    && forall s :: 0 <= s < slot ==> !SlotHolds(nodes, ids, s, ip)
  }

  /** The slots as texts, with the empty string for an empty slot. */
  function Slots(eligible: seq<Node>, ids: seq<int>): (s: seq<string>)
    ensures |s| == 2 * |ids|
  {
    if ids == [] then []
    else
      var found := Lookup(eligible, ids[|ids| - 1]);
      Slots(eligible, ids[..|ids| - 1]) + if found == [] then ["", ""] else [found[0].publicIp, DeriveDataIp(found[0].mgmtIp)]
  }

  lemma {:induction false} DedupSlots(eligible: seq<Node>, ids: seq<int>)
    ensures Dedup(Candidates(eligible, ids)) == Dedup(Slots(eligible, ids))
  {
    hide Lookup, Dedup, DeriveDataIp, Push;
    if ids != [] {
      var (prefix, found) := (ids[..|ids| - 1], Lookup(eligible, ids[|ids| - 1]));
      var (before, slots) := (Candidates(eligible, prefix), Slots(eligible, prefix));
      DedupSlots(eligible, prefix);
      if found == [] {
        DedupTwo(slots, "", "");
        PushEmpty(Dedup(slots));
        assert before + [] == before;
      } else {
        DedupTwo(before, found[0].publicIp, DeriveDataIp(found[0].mgmtIp));
        DedupTwo(slots, found[0].publicIp, DeriveDataIp(found[0].mgmtIp));
      }
    }
  }

  lemma PushEmpty(ips: seq<string>)
    ensures Push(ips, "") == ips
  {
  }

  lemma {:induction false} SlotAt(eligible: seq<Node>, ids: seq<int>, slot: nat)
    requires slot < 2 * |ids|
    ensures var found := Lookup(eligible, ids[slot / 2]);
      Slots(eligible, ids)[slot] ==
        if found == [] then "" else if slot % 2 == 0 then found[0].publicIp else DeriveDataIp(found[0].mgmtIp)
  {
    hide Lookup, DeriveDataIp;
    if slot < 2 * (|ids| - 1) {
      SlotAt(eligible, ids[..|ids| - 1], slot);
    } else {
      assert slot == 2 * (|ids| - 1) || slot == 2 * (|ids| - 1) + 1;
    }
  }

  lemma SlotHoldsIff(nodes: seq<Node>, ids: seq<int>, slot: nat, ip: string)
    requires DistinctIds(nodes) && slot < 2 * |ids| && ip != ""
    ensures SlotHolds(nodes, ids, slot, ip) <==> Slots(Select(nodes, Eligible), ids)[slot] == ip
  {
    var eligible := Select(nodes, Eligible);
    SlotAt(eligible, ids, slot);
    SelectDistinct(nodes);
    LookupFinds(eligible, ids[slot / 2]);
    forall n ensures n in eligible <==> n in nodes && Usable(n) {
      SelectHolds(nodes, Eligible, n);
    }
    hide Slots, Lookup, DeriveDataIp, Select, Usable;
    if SlotHolds(nodes, ids, slot, ip) {
      var n :| n in nodes && n.id == ids[slot / 2] && Usable(n) && ip == if slot % 2 == 0 then n.publicIp else DeriveDataIp(n.mgmtIp);
      assert Lookup(eligible, ids[slot / 2]) == [n];
    }
  }

  /**
   * The allow list of a route holds each address of its slots once, in the order of their first slots, and
   * nothing else.
   */
  lemma AllowListExact(nodes: seq<Node>, ids: seq<int>) returns (slots: seq<nat>)
    requires DistinctIds(nodes)
    ensures var ips := AllowedIps(nodes, ids);
      && |slots| == |ips|
      && (forall i :: 0 <= i < |ips| ==> ips[i] != "" && FirstSlot(nodes, ids, slots[i], ips[i]))
      && (forall i, j :: 0 <= i < j < |ips| ==> slots[i] < slots[j])
      && (forall slot, ip :: ip != "" && FirstSlot(nodes, ids, slot, ip) ==> ip in ips)
  {
    hide *;
    var (ips, all) := (AllowedIps(nodes, ids), Slots(Select(nodes, Eligible), ids));
    AllowedFromSlots(nodes, ids);
    DedupExact(all);
    SlotsHold(nodes, ids);
    assert forall i :: 0 <= i < |ips| ==> ips[i] in ips;
    slots := seq(|ips|, i requires 0 <= i < |ips| => FirstIndex(all, ips[i]));
    forall slot: nat, ip | ip != "" && slot < |all|
      ensures FirstSlot(nodes, ids, slot, ip) <==> slot == FirstIndex(all, ip)
    {
      FirstSlotIs(nodes, ids, all, slot, ip);
    }
    forall slot: nat, ip | ip != "" && FirstSlot(nodes, ids, slot, ip) ensures ip in ips {
      FirstSlotInside(nodes, ids, slot, ip);
    }
  }

  lemma AllowedFromSlots(nodes: seq<Node>, ids: seq<int>)
    ensures AllowedIps(nodes, ids) == Dedup(Slots(Select(nodes, Eligible), ids))
  {
    DedupSlots(Select(nodes, Eligible), ids);
  }

  lemma SlotsHold(nodes: seq<Node>, ids: seq<int>)
    requires DistinctIds(nodes)
    ensures forall slot: nat, ip :: slot < 2 * |ids| && ip != "" ==>
      (SlotHolds(nodes, ids, slot, ip) <==> Slots(Select(nodes, Eligible), ids)[slot] == ip)
  {
    hide *;
    forall slot: nat, ip | slot < 2 * |ids| && ip != ""
      ensures SlotHolds(nodes, ids, slot, ip) <==> Slots(Select(nodes, Eligible), ids)[slot] == ip
    {
      SlotHoldsIff(nodes, ids, slot, ip);
    }
  }

  lemma FirstSlotInside(nodes: seq<Node>, ids: seq<int>, slot: nat, ip: string)
    requires FirstSlot(nodes, ids, slot, ip)
    ensures slot < 2 * |ids|
  {
  }

  lemma FirstSlotIs(nodes: seq<Node>, ids: seq<int>, all: seq<string>, slot: nat, ip: string)
    requires |all| == 2 * |ids| && ip != "" && slot < |all|
    requires forall s: nat, x :: s < 2 * |ids| && x != "" ==> (SlotHolds(nodes, ids, s, x) <==> all[s] == x)
    ensures FirstSlot(nodes, ids, slot, ip) <==> slot == FirstIndex(all, ip)
  {
    hide SlotHolds;
    var n := FirstIndex(all, ip);
    assert forall s :: 0 <= s < n ==> all[s] != ip;
    assert n < |all| ==> all[n] == ip;
    assert all[slot] == ip ==> n < |all|;
    hide FirstIndex;
    if n < |all| {
      assert SlotHolds(nodes, ids, n, ip);
    }
    forall s: nat | s < n && s < |all| ensures !SlotHolds(nodes, ids, s, ip) {
      assert all[s] != ip;
    }
  }

  /** Where a route is published: its realm, target and secret as they are stored, and its own allow list. */
  predicate PublishedAs(r: Route, nodes: seq<Node>, vault: Vault, p: Published) {
    && p.realm == r.realm && p.target == r.target
    && p.secret == (if r.secretRef == "" then "" else vault(r.target.customerId, r.secretRef))
    && p.allowedIps == AllowedIps(nodes, r.allowedNodes)
  }

  /** The table publishes exactly the routes whose status is "active", each as it is stored, by ascending realm. */
  lemma TableExact(routes: seq<Route>, nodes: seq<Node>, vault: Vault)
    requires DistinctRealms(routes)
    ensures forall p :: p in Publish(routes, nodes, vault) <==>
      exists r :: r in routes && r.status == "active" && PublishedAs(r, nodes, vault, p)
    ensures forall i, j :: 0 <= i < j < |Publish(routes, nodes, vault)| ==>
      ComesBefore(Publish(routes, nodes, vault)[i].realm, Publish(routes, nodes, vault)[j].realm)
  {
    PublishedExactly(routes, nodes, vault);
    var out := Publish(routes, nodes, vault);
    hide Publish, AllowedIps, Precedes, ComesBefore;
    forall r, p ensures p == Entry(r, nodes, vault) <==> PublishedAs(r, nodes, vault, p) {
    }
    hide Entry, PublishedAs;
    forall i, j | 0 <= i < j < |out| ensures ComesBefore(out[i].realm, out[j].realm) {
      PrecedesIff(out[i].realm, out[j].realm);
    }
  }
}
