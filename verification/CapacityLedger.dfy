/** Bandwidth allocations on fleet nodes (app/admin/infra_routes.py). */
module CapacityLedger {
  import opened Options

  // ---------------------------------------------------------------- the table

  datatype Status = Pending | Active | Suspended | Expired | Cancelled

  /** A service allocation; `node` is NULL for a service on the customer's own server. */
  datatype Allocation = Allocation(node: Option<int>, speed: int, status: Status)

  /** Rows are never removed; a row's id is its position. */
  type Ledger = seq<Allocation>

  /** The fleet registry: each node's link speed, where zero or less means unlimited. */
  type Fleet = map<int, int>

  /** What a row takes of a node: its speed while it is active or pending there. */
  function Share(a: Allocation, node: int): int {
    if a.node == Some(node) && (a.status == Active || a.status == Pending) then a.speed else 0
  }

  /** `_fleet_reserved_mbps`. */
  function Reserved(rows: Ledger, node: int): int {
    if rows == [] then 0 else Share(rows[0], node) + Reserved(rows[1..], node)
  }

  // ---------------------------------------------------------------- operations

  /** The posts of the allocation pages, with integers as `_int` reads them (None when it cannot). */
  datatype Post =
    | Create(serviceType: string, node: Option<int>, speed: Option<int>)
    | SetStatus(id: nat, status: Option<Status>)
    | Edit(id: nat, speed: Option<int>)

  const SERVICE_TYPES := {"sstp", "pptp", "l2tp_ipsec", "ikev2_ipsec", "ip_change", "site_exit", "wireguard_data"}

  datatype Outcome = Saved | BadServiceType | NodeRequired | NoSuchNode | OverCapacity | NotFound | BadStatus

  function OrZero(n: Option<int>): int {
    if n.None? then 0 else n.value
  }

  function OutcomeOf(fleet: Fleet, rows: Ledger, p: Post): Outcome {
    match p
    case Create(serviceType, node, speed) =>
      if serviceType !in SERVICE_TYPES then BadServiceType
      else if OrZero(node) == 0 then if serviceType == "wireguard_data" then Saved else NodeRequired
      else if OrZero(node) !in fleet then NoSuchNode
      else
        var cap := fleet[OrZero(node)];
        if cap > 0 && Reserved(rows, OrZero(node)) + OrZero(speed) > cap then OverCapacity else Saved
    case SetStatus(id, status) => if id >= |rows| then NotFound else if status.None? then BadStatus else Saved
    case Edit(id, _) => if id >= |rows| then NotFound else Saved
  }

  function AfterPost(fleet: Fleet, rows: Ledger, p: Post): Ledger {
    if OutcomeOf(fleet, rows, p) != Saved then rows
    else
      match p
      case Create(_, node, speed) => rows + [Allocation(node, OrZero(speed), Pending)]
      case SetStatus(id, status) => rows[id := rows[id].(status := status.value)]
      case Edit(id, speed) => rows[id := rows[id].(speed := if speed.None? then rows[id].speed else speed.value)]
  }

  class AllocationPages {
    var rows: Ledger

    constructor ()
      ensures rows == []
    {
      rows := [];
    }

    method ServiceAllocationCreate(fleet: Fleet, serviceType: string, node: Option<int>, speed: Option<int>)
      returns (outcome: Outcome)
      modifies this
      ensures var p := Create(serviceType, node, speed);
        outcome == OutcomeOf(fleet, old(rows), p) && rows == AfterPost(fleet, old(rows), p)
    {
      if serviceType !in SERVICE_TYPES {
        return BadServiceType;
      }
      var nodeId := OrZero(node);
      if serviceType != "wireguard_data" && nodeId == 0 {
        return NodeRequired;
      }
      if nodeId != 0 {
        if nodeId !in fleet {
          return NoSuchNode;
        }
        var cap := fleet[nodeId];
        if cap > 0 && Reserved(rows, nodeId) + OrZero(speed) > cap {
          return OverCapacity;
        }
      }
      rows := rows + [Allocation(node, OrZero(speed), Pending)];
      outcome := Saved;
    }

    method ServiceAllocationSetStatus(fleet: Fleet, id: nat, status: Option<Status>) returns (outcome: Outcome)
      modifies this
      ensures var p := SetStatus(id, status);
        outcome == OutcomeOf(fleet, old(rows), p) && rows == AfterPost(fleet, old(rows), p)
    {
      if id >= |rows| {
        return NotFound;
      }
      if status.None? {
        return BadStatus;
      }
      rows := rows[id := rows[id].(status := status.value)];
      outcome := Saved;
    }

    method ServiceAllocationEdit(fleet: Fleet, id: nat, speed: Option<int>) returns (outcome: Outcome)
      modifies this
      ensures var p := Edit(id, speed);
        outcome == OutcomeOf(fleet, old(rows), p) && rows == AfterPost(fleet, old(rows), p)
    {
      if id >= |rows| {
        return NotFound;
      }
      if speed.Some? {
        rows := rows[id := rows[id].(speed := speed.value)];
      }
      outcome := Saved;
    }
  }

  // ---------------------------------------------------------------- sums

  lemma {:induction false} ReservedAppend(rows: Ledger, a: Allocation, node: int)
    ensures Reserved(rows + [a], node) == Reserved(rows, node) + Share(a, node)
  {
    if rows == [] {
      assert [a][1..] == [];
    } else {
      ReservedAppend(rows[1..], a, node);
      assert (rows + [a])[1..] == rows[1..] + [a];
    }
  }

  lemma {:induction false} ReservedUpdate(rows: Ledger, id: nat, a: Allocation, node: int)
    requires id < |rows|
    ensures Reserved(rows[id := a], node) == Reserved(rows, node) - Share(rows[id], node) + Share(a, node)
  {
    if id > 0 {
      ReservedUpdate(rows[1..], id - 1, a, node);
      assert rows[id := a][1..] == rows[1..][id - 1 := a];
    }
  }

  // ---------------------------------------------------------------- conservation

  /** What a post adds to a node's reservation, read off the one row it writes. */
  function Delta(fleet: Fleet, rows: Ledger, p: Post, node: int): int {
    if OutcomeOf(fleet, rows, p) != Saved then 0
    else
      match p
      case Create(_, n, speed) => if n == Some(node) then OrZero(speed) else 0
      case SetStatus(id, status) => Share(rows[id].(status := status.value), node) - Share(rows[id], node)
      case Edit(id, speed) =>
        if speed.None? then 0 else Share(rows[id].(speed := speed.value), node) - Share(rows[id], node)
  }

  /** Each post moves every node's reservation by exactly its own delta. */
  lemma PostDelta(fleet: Fleet, rows: Ledger, p: Post, node: int)
    ensures Reserved(AfterPost(fleet, rows, p), node) == Reserved(rows, node) + Delta(fleet, rows, p, node)
  {
    if OutcomeOf(fleet, rows, p) == Saved {
      match p
      case Create(_, n, speed) => ReservedAppend(rows, Allocation(n, OrZero(speed), Pending), node);
      case SetStatus(id, status) => ReservedUpdate(rows, id, rows[id].(status := status.value), node);
      case Edit(id, speed) =>
        ReservedUpdate(rows, id, rows[id].(speed := if speed.None? then rows[id].speed else speed.value), node);
    }
  }

  function After(fleet: Fleet, rows: Ledger, posts: seq<Post>): Ledger {
    if posts == [] then rows
    else AfterPost(fleet, After(fleet, rows, posts[..|posts| - 1]), posts[|posts| - 1])
  }

  /** The deltas of a run; with `unchecked` only the positive ones of status changes and edits. */
  function TotalDelta(fleet: Fleet, rows: Ledger, posts: seq<Post>, node: int, unchecked: bool): int {
    if posts == [] then 0
    else
      var (before, p) := (After(fleet, rows, posts[..|posts| - 1]), posts[|posts| - 1]);
      var d := Delta(fleet, before, p, node);
      TotalDelta(fleet, rows, posts[..|posts| - 1], node, unchecked) +
      (if unchecked && (p.Create? || d < 0) then 0 else d)
  }

  lemma {:induction false} ReservationConserved(fleet: Fleet, rows: Ledger, posts: seq<Post>, node: int)
    ensures Reserved(After(fleet, rows, posts), node) == Reserved(rows, node) + TotalDelta(fleet, rows, posts, node, false)
  {
    if posts != [] {
      ReservationConserved(fleet, rows, posts[..|posts| - 1], node);
      PostDelta(fleet, After(fleet, rows, posts[..|posts| - 1]), posts[|posts| - 1], node);
    }
  }

  /**
   * Over any run a node with a link speed is never reserved beyond it, or beyond what it started with, by
   * more than the status changes and edits added, since only a create checks the capacity.
   */
  lemma {:induction false} OversubscriptionBound(fleet: Fleet, rows: Ledger, posts: seq<Post>, node: int)
    requires node in fleet && fleet[node] > 0 && node != 0
    ensures var limit := if Reserved(rows, node) > fleet[node] then Reserved(rows, node) else fleet[node];
      Reserved(After(fleet, rows, posts), node) <= limit + TotalDelta(fleet, rows, posts, node, true)
    ensures TotalDelta(fleet, rows, posts, node, true) >= 0
  {
    if posts != [] {
      var (prefix, p) := (posts[..|posts| - 1], posts[|posts| - 1]);
      OversubscriptionBound(fleet, rows, prefix, node);
      PostDelta(fleet, After(fleet, rows, prefix), p, node);
      hide Reserved, AfterPost, Share;
    }
  }

  // ---------------------------------------------------------------- exactly when a node is oversubscribed

  /** What the row a status change or an edit names takes of the node before it, and after it. */
  function OldShare(rows: Ledger, id: nat, node: int): int
    requires id < |rows|
  {
    Share(rows[id], node)
  }

  function NewShare(rows: Ledger, p: Post, node: int): int
    requires !p.Create? && p.id < |rows|
    requires p.SetStatus? ==> p.status.Some?
  {
    var a := rows[p.id];
    if p.SetStatus? then Share(a.(status := p.status.value), node)
    else if p.speed.None? then Share(a, node)
    else Share(a.(speed := p.speed.value), node)
  }

  predicate Within(fleet: Fleet, rows: Ledger, node: int)
    requires node in fleet
  {
    Reserved(rows, node) <= fleet[node]
  }

  /** The check a create makes, asked of a status change or an edit: is there room for what its row will take? */
  predicate HasRoom(fleet: Fleet, rows: Ledger, p: Post, node: int)
    requires node in fleet
  {
    !p.Create? && OutcomeOf(fleet, rows, p) == Saved ==>
      Reserved(rows, node) - OldShare(rows, p.id, node) + NewShare(rows, p, node) <= fleet[node]
  }

  /** One post leaves a node within its capacity if and only if it is a create or its row has room there. */
  lemma WithinIff(fleet: Fleet, rows: Ledger, p: Post, node: int)
    requires node in fleet && fleet[node] > 0 && node != 0 && Within(fleet, rows, node)
    ensures Within(fleet, AfterPost(fleet, rows, p), node) <==> HasRoom(fleet, rows, p, node)
  {
    PostDelta(fleet, rows, p, node);
    hide Reserved, AfterPost;
  }

  /** After every post of the run the node is within its capacity. */
  ghost predicate AlwaysWithin(fleet: Fleet, rows: Ledger, posts: seq<Post>, node: int)
    requires node in fleet
  {
    forall n :: 0 <= n <= |posts| ==> Within(fleet, After(fleet, rows, posts[..n]), node)
  }

  /** Every saved status change and edit of the run has room on the node when it is posted. */
  ghost predicate AlwaysHasRoom(fleet: Fleet, rows: Ledger, posts: seq<Post>, node: int)
    requires node in fleet
  {
    forall n :: 0 <= n < |posts| ==> HasRoom(fleet, After(fleet, rows, posts[..n]), posts[n], node)
  }

  lemma AfterNext(fleet: Fleet, rows: Ledger, posts: seq<Post>, n: nat)
    requires n < |posts|
    ensures After(fleet, rows, posts[..n + 1]) == AfterPost(fleet, After(fleet, rows, posts[..n]), posts[n])
  {
    hide AfterPost;
    assert posts[..n + 1][..n] == posts[..n];
  }

  lemma {:induction false} RoomKeepsWithin(fleet: Fleet, rows: Ledger, posts: seq<Post>, node: int, n: nat)
    requires node in fleet && fleet[node] > 0 && node != 0 && Within(fleet, rows, node) && n <= |posts|
    requires AlwaysHasRoom(fleet, rows, posts, node)
    ensures Within(fleet, After(fleet, rows, posts[..n]), node)
  {
    hide Within, HasRoom, AfterPost;
    if n > 0 {
      RoomKeepsWithin(fleet, rows, posts, node, n - 1);
      AfterNext(fleet, rows, posts, n - 1);
      WithinIff(fleet, After(fleet, rows, posts[..n - 1]), posts[n - 1], node);
    }
  }

  /**
   * A node is never oversubscribed during a run if and only if every saved status change and edit would
   * have passed the create's own check; creates need no condition.
   */
  lemma NeverOversubscribedIff(fleet: Fleet, rows: Ledger, posts: seq<Post>, node: int)
    requires node in fleet && fleet[node] > 0 && node != 0 && Within(fleet, rows, node)
    ensures AlwaysWithin(fleet, rows, posts, node) <==> AlwaysHasRoom(fleet, rows, posts, node)
  {
    hide Within, HasRoom, After, AfterPost;
    if AlwaysHasRoom(fleet, rows, posts, node) {
      forall n | 0 <= n <= |posts| ensures Within(fleet, After(fleet, rows, posts[..n]), node) {
        RoomKeepsWithin(fleet, rows, posts, node, n);
      }
    }
    if AlwaysWithin(fleet, rows, posts, node) {
      forall n | 0 <= n < |posts| ensures HasRoom(fleet, After(fleet, rows, posts[..n]), posts[n], node) {
        assert Within(fleet, After(fleet, rows, posts[..n]), node) && Within(fleet, After(fleet, rows, posts[..n + 1]), node);
        AfterNext(fleet, rows, posts, n);
        WithinIff(fleet, After(fleet, rows, posts[..n]), posts[n], node);
      }
    }
  }

  /** A table that starts within capacity stays within it as long as no status change or edit adds to the node. */
  lemma NeverOversubscribed(fleet: Fleet, rows: Ledger, posts: seq<Post>, node: int)
    requires node in fleet && fleet[node] > 0 && node != 0
    requires Reserved(rows, node) <= fleet[node] && TotalDelta(fleet, rows, posts, node, true) == 0
    ensures Reserved(After(fleet, rows, posts), node) <= fleet[node]
  {
    OversubscriptionBound(fleet, rows, posts, node);
  }

  /**
   * A run that fails the condition: suspend a full allocation, create another, resume the first.
   */
  lemma ResumingOversubscribes(node: int, cap: int)
    requires node != 0 && cap > 0
    ensures var posts := [
        Create("sstp", Some(node), Some(cap)), SetStatus(0, Some(Suspended)),
        Create("sstp", Some(node), Some(cap)), SetStatus(0, Some(Active))];
      Reserved(After(map[node := cap], [], posts), node) == 2 * cap
  {
    var fleet := map[node := cap];
    var create := Create("sstp", Some(node), Some(cap));
    var (p1, p2, p3) := ([create], [create, SetStatus(0, Some(Suspended))], [create, SetStatus(0, Some(Suspended)), create]);
    var posts := p3 + [SetStatus(0, Some(Active))];
    var (a, s) := (Allocation(Some(node), cap, Pending), Allocation(Some(node), cap, Suspended));
    assert p1[..0] == [] && p2[..1] == p1 && p3[..2] == p2 && posts[..3] == p3;
    assert After(fleet, [], p1) == [a];
    assert After(fleet, [], p2) == [s];
    ReservedAppend([], s, node);
    assert Reserved([s], node) == 0;
    assert After(fleet, [], p3) == [s, a];
    assert After(fleet, [], posts) == [a.(status := Active), a];
    assert [a.(status := Active), a][1..] == [a];
    assert posts == [create, SetStatus(0, Some(Suspended)), create, SetStatus(0, Some(Active))];
  }

  // ---------------------------------------------------------------- what counts, written out

  /** The allocations on a node that are pending or active. */
  function Live(rows: Ledger, node: int): (r: Ledger)
    ensures forall a :: a in r <==> a in rows && a.node == Some(node) && (a.status == Pending || a.status == Active)
  {
    if rows == [] then []
    else
      assert rows == [rows[0]] + rows[1..];
      var rest := Live(rows[1..], node);
      if rows[0].node == Some(node) && rows[0].status in {Pending, Active} then [rows[0]] + rest else rest
  }

  function Speeds(rows: Ledger): int {
    if rows == [] then 0 else rows[0].speed + Speeds(rows[1..])
  }

  /** What is reserved on a node is the speed of its live allocations; suspended, expired and cancelled ones take nothing. */
  lemma {:induction false} ReservedIsLive(rows: Ledger, node: int)
    ensures Reserved(rows, node) == Speeds(Live(rows, node))
  {
    if rows != [] {
      ReservedIsLive(rows[1..], node);
      assert ([rows[0]] + Live(rows[1..], node))[1..] == Live(rows[1..], node);
    }
  }

  predicate Counts(s: Status) {
    s == Pending || s == Active
  }

  /** The node has no limit, or its live allocations leave room for that speed. */
  predicate Fits(fleet: Fleet, rows: Ledger, node: int, speed: int)
    requires node in fleet
  {
    fleet[node] <= 0 || Speeds(Live(rows, node)) + speed <= fleet[node]
  }

  /** Which posts are saved. A create needs a known type, a node unless the service runs without, and room on it. */
  lemma SavedIff(fleet: Fleet, rows: Ledger, p: Post)
    ensures p.Create? ==> (OutcomeOf(fleet, rows, p) == Saved <==>
      && p.serviceType in {"sstp", "pptp", "l2tp_ipsec", "ikev2_ipsec", "ip_change", "site_exit", "wireguard_data"}
      && (p.node == None || p.node == Some(0) ==> p.serviceType == "wireguard_data")
      && (p.node.Some? && p.node != Some(0) ==>
            p.node.value in fleet && Fits(fleet, rows, p.node.value, if p.speed.Some? then p.speed.value else 0)))
    ensures p.SetStatus? ==> (OutcomeOf(fleet, rows, p) == Saved <==> p.id < |rows| && p.status.Some?)
    ensures p.Edit? ==> (OutcomeOf(fleet, rows, p) == Saved <==> p.id < |rows|)
  {
    if p.Create? && p.node.Some? {
      ReservedIsLive(rows, p.node.value);
    }
    hide Reserved, Live, Speeds;
  }

  /** What a saved post writes: a pending row with the posted speed, or one field of the row it names. */
  lemma PostWrites(fleet: Fleet, rows: Ledger, p: Post)
    requires OutcomeOf(fleet, rows, p) == Saved
    ensures p.Create? ==> AfterPost(fleet, rows, p) == rows + [Allocation(p.node, if p.speed.Some? then p.speed.value else 0, Pending)]
    ensures !p.Create? ==> p.id < |rows| && |AfterPost(fleet, rows, p)| == |rows| && forall i :: 0 <= i < |rows| ==>
      var (a, b) := (rows[i], AfterPost(fleet, rows, p)[i]);
      && b.node == a.node
      && b.status == (if p.SetStatus? && i == p.id then p.status.value else a.status)
      && b.speed == if p.Edit? && i == p.id && p.speed.Some? then p.speed.value else a.speed
  {
    hide Reserved;
  }

  /**
   * A change of status frees or takes exactly the speed of the row on its node when it leaves or joins the live
   * ones, and touches no other node.
   */
  lemma StatusMoves(fleet: Fleet, rows: Ledger, id: nat, s: Status, node: int)
    requires id < |rows|
    ensures var after := AfterPost(fleet, rows, SetStatus(id, Some(s)));
      Reserved(after, node) - Reserved(rows, node) ==
        if rows[id].node != Some(node) || (Counts(s) <==> Counts(rows[id].status)) then 0
        else if Counts(s) then rows[id].speed else -rows[id].speed
  {
    PostDelta(fleet, rows, SetStatus(id, Some(s)), node);
    hide Reserved, AfterPost;
  }
}
