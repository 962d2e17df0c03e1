/** The boot-time schema heal: `ensure_schema_compatibility` and `_add_columns_if_missing`. */
module SchemaHeal {
  import opened Options

  // ---------------------------------------------------------------- the database

  datatype Value = Null | Number(n: int) | Text(s: string) | Flag(b: bool)

  type Row = map<string, Value>

  /** A table's rows are held in the order a scan meets them; the heal never adds or removes one. */
  datatype Table = Table(columns: set<string>, rows: seq<Row>)

  type Tables = map<string, Table>

  predicate Rectangular(db: Tables) {
    forall name :: name in db ==> RectangularTable(db[name])
  }

  predicate RectangularTable(t: Table) {
    forall i :: 0 <= i < |t.rows| ==> t.rows[i].Keys == t.columns
  }

  function MapRows(t: Table, f: Row -> Row): Table {
    t.(rows := seq(|t.rows|, i requires 0 <= i < |t.rows| => f(t.rows[i])))
  }

  // ---------------------------------------------------------------- single statements

  /** A column definition: its name and what ALTER TABLE fills existing rows with. */
  datatype Column = Column(name: string, default: Value)

  function Names(columns: seq<Column>): set<string> {
    set c | c in columns :: c.name
  }

  function AddColumn(t: Table, c: Column): Table {
    if c.name in t.columns then t
    else Table(t.columns + {c.name}, seq(|t.rows|, i requires 0 <= i < |t.rows| => t.rows[i][c.name := c.default]))
  }

  function WithColumns(t: Table, columns: seq<Column>): Table {
    if columns == [] then t
    else AddColumn(WithColumns(t, columns[..|columns| - 1]), columns[|columns| - 1])
  }

  function DropColumn(t: Table, name: string): Table {
    Table(t.columns - {name}, seq(|t.rows|, i requires 0 <= i < |t.rows| => t.rows[i] - {name}))
  }

  const MAX_FINGERPRINTS := "max_fingerprints"
  const API_PORT := "routeros_api_port"
  const FLEET_NODE := "fleet_chr_node_id"
  const LEGACY_NODE := "chr_node_id"
  const LEGACY_ALLOW_LIST := "allowed_chr_node_ids_json"

  /** UPDATE licenses SET max_fingerprints = 3 WHERE max_fingerprints < 3; without the column it fails and nothing changes. */
  function RaiseFloor(r: Row): Row {
    if MAX_FINGERPRINTS in r && r[MAX_FINGERPRINTS].Number? && r[MAX_FINGERPRINTS].n < 3
    then r[MAX_FINGERPRINTS := Number(3)] else r
  }

  function FixPort(r: Row): Row {
    if API_PORT in r && r[API_PORT] == Number(8729) then r[API_PORT := Number(8443)] else r
  }

  /** SELECT id FROM fleet_chr_nodes WHERE public_ip = ip; NULL when there is no such node. */
  function NodeAt(fleet: seq<Row>, ip: Value): Value {
    if fleet == [] then Null
    else if "public_ip" in fleet[0] && "id" in fleet[0] && fleet[0]["public_ip"] == ip then fleet[0]["id"]
    else NodeAt(fleet[1..], ip)
  }

  function Stamp(fleet: seq<Row>, r: Row): Row {
    if FLEET_NODE in r && "chr_host" in r && r[FLEET_NODE] == Null && r["chr_host"].Text? && r["chr_host"].s != ""
    then r[FLEET_NODE := NodeAt(fleet, r["chr_host"])] else r
  }

  // ---------------------------------------------------------------- the heal as a list of steps

  datatype Step =
    | AddColumns(table: string, columns: seq<Column>)
    | RaiseFingerprintFloor
    | FixApiPort
    | MoveAllocationNode
    | DropAllowList
    | DropLegacy(table: string)
    | StampNode(table: string)

  /** What the engine behind the connection can do; a statement it cannot do is rolled back. */
  datatype Engine = Engine(supported: bool, dropsColumns: bool, dropsTables: bool)

  function OnTable(db: Tables, name: string, f: Table -> Table): Tables {
    if name in db then db[name := f(db[name])] else db
  }

  /** service_allocations.chr_node_id: cleared and renamed, or dropped when its successor exists already. */
  function MoveNode(e: Engine, t: Table): Table {
    if LEGACY_NODE in t.columns && FLEET_NODE !in t.columns then
      Table(t.columns - {LEGACY_NODE} + {FLEET_NODE},
            seq(|t.rows|, i requires 0 <= i < |t.rows| => (t.rows[i] - {LEGACY_NODE})[FLEET_NODE := Null]))
    else if LEGACY_NODE in t.columns && e.dropsColumns then DropColumn(t, LEGACY_NODE)
    else t
  }

  function DropOldAllowList(e: Engine, t: Table): Table {
    if LEGACY_ALLOW_LIST in t.columns && e.dropsColumns then DropColumn(t, LEGACY_ALLOW_LIST) else t
  }

  function Apply(e: Engine, db: Tables, s: Step): Tables {
    match s
    case AddColumns(name, columns) => OnTable(db, name, t => WithColumns(t, columns))
    case RaiseFingerprintFloor => OnTable(db, "licenses", t => MapRows(t, RaiseFloor))
    case FixApiPort => OnTable(db, "fleet_chr_nodes", t => MapRows(t, FixPort))
    case MoveAllocationNode => OnTable(db, "service_allocations", t => MoveNode(e, t))
    case DropAllowList => OnTable(db, "proxy_realm_routes", t => DropOldAllowList(e, t))
    case DropLegacy(name) => if e.dropsTables then db - {name} else db
    case StampNode(name) =>
      if "fleet_chr_nodes" !in db then db
      else
        var fleet := db["fleet_chr_nodes"].rows;
        OnTable(db, name, t => MapRows(t, r => Stamp(fleet, r)))
  }

  function Run(e: Engine, db: Tables, steps: seq<Step>): Tables {
    if steps == [] then db
    else Apply(e, Run(e, db, steps[..|steps| - 1]), steps[|steps| - 1])
  }

  const EMPTY := Text("")
  const OFF := Flag(false)

  /** Up to the legacy removal, in source order. No step before that creates or drops a table. */
  const ADDITIVE_STEPS: seq<Step> := [
    AddColumns("customers", [
      Column("runtime_url", EMPTY), Column("portal_config_json", Text("{}")), Column("owner_admins_json", Text("[]")),
      Column("currency", Text("USD")), Column("country_iso", EMPTY), Column("dial_code", EMPTY)]),
    AddColumns("admins", [Column("is_super_admin", OFF)]),
    AddColumns("customer_users", [Column("is_super", OFF)]),
    AddColumns("customer_radius_admins", [Column("is_primary", OFF)]),
    AddColumns("chr_nodes", [Column("device_facts_json", Text("{}"))]),
    AddColumns("fleet_chr_nodes", [Column("roles_json", Text("[]"))]),
    AddColumns("customers", [
      Column("subdomain", EMPTY), Column("speed_unlock_mbps", Number(0)), Column("vps_ip", EMPTY),
      Column("dns_record_id", EMPTY), Column("dns_synced_at", Null), Column("cert_status", Text("unknown")),
      Column("radius_admins_sync_requested_at", Null)]),
    AddColumns("plans", [Column("speed_unlock_mbps", Number(0))]),
    AddColumns("customer_radius_instances", [
      Column("wg_public_key", EMPTY), Column("wg_last_handshake_at", Null), Column("last_published_fingerprint", EMPTY),
      Column("last_reported_fingerprint", EMPTY), Column("last_fingerprint_reported_at", Null),
      Column("drift_cycles", Number(0)), Column("reported_nas_count", Number(-1)),
      Column("reported_subscribers_count", Number(-1)), Column("inventory_reported_at", Null)]),
    AddColumns("license_payment_requests", [
      Column("access_token", EMPTY), Column("applied_at", Null), Column("applied_action", EMPTY),
      Column("applied_result_json", Text("{}"))]),
    RaiseFingerprintFloor,
    AddColumns("customer_vpn_tunnels", [
      Column("license_id", Null), Column("password_hint", EMPTY), Column("profile", Text("default")),
      Column("max_connections", Number(1)), Column("speed_profile_id", Null), Column("download_mbps", Null),
      Column("upload_mbps", Null), Column("rate_limit", EMPTY), Column("monthly_quota_gb", Null),
      Column("throttle_down_mbps", Null), Column("throttle_up_mbps", Null), Column("quota_period", EMPTY),
      Column("quota_bytes_used", Number(0)), Column("quota_sample_bytes", Number(0)), Column("is_throttled", OFF),
      Column("provisioning", Text("auto")), Column("source", Text("bridge_request")), Column("chr_provisioned", OFF),
      Column("chr_secret_id", EMPTY), Column("chr_host", EMPTY), Column("remote_address", EMPTY),
      Column("delivery_status", Text("pending")), Column("delivered_at", Null), Column("requested_by_user_id", Null),
      Column("created_by_admin_id", Null), Column("last_error", EMPTY), Column("notes", EMPTY)]),
    AddColumns("provisioning_orders", [
      Column("license_payment_request_id", Null), Column("target_plan_id", Null), Column("requested_at", Null),
      Column("paid_at", Null), Column("provisioning_started_at", Null), Column("ready_at", Null),
      Column("assigned_operator", EMPTY)]),
    AddColumns("whatsapp_message_queue", [
      Column("provider_message_id", Null), Column("next_attempt_at", Null), Column("error_code", Null),
      Column("error_message", Null)]),
    AddColumns("whatsapp_tenant_accounts", [
      Column("quality_rating", Null), Column("messaging_limit_tier", Null), Column("last_health_check_at", Null),
      Column("last_error_code", Null), Column("last_error_message", Null), Column("onboarding_method", Null),
      Column("scopes", Null), Column("last_sync_at", Null)]),
    AddColumns("whatsapp_embedded_signup_attempts", [
      Column("license_id", Null), Column("nonce_hash", Null), Column("status", Null), Column("error_code", Null),
      Column("error_message", Null), Column("initiated_by", Null), Column("expires_at", Null),
      Column("completed_at", Null)]),
    AddColumns("fleet_chr_nodes", [
      Column("routeros_api_user", EMPTY), Column("routeros_api_password_enc", EMPTY),
      Column("legacy_chr_node_id", Null), Column("wg_data_pubkey", EMPTY), Column("needs_reimport", OFF),
      Column("control_wg_public_key_snapshot", EMPTY), Column("proxy_wg_public_key_snapshot", EMPTY),
      Column("conn_config_json", Text("{}"))]),
    FixApiPort,
    AddColumns("proxy_realm_routes", [Column("allowed_fleet_chr_node_ids_json", Text("[]"))]),
    AddColumns("app_releases", [Column("download_url", EMPTY)]),
    AddColumns("customer_vpn_entitlements", [Column("traffic_quota_gb", Null)]),
    AddColumns("customer_vpn_tunnels", [Column(FLEET_NODE, Null)]),
    AddColumns("customer_wireguard_peers", [Column(FLEET_NODE, Null)])
  ]

  const LEGACY_STEPS: seq<Step> := [
    MoveAllocationNode,
    DropAllowList,
    DropLegacy("chr_node_metrics"),
    DropLegacy("chr_nodes"),
    StampNode("customer_vpn_tunnels"),
    StampNode("customer_wireguard_peers")
  ]

  function Plan(): seq<Step> {
    ADDITIVE_STEPS + LEGACY_STEPS
  }

  /** The database after `ensure_schema_compatibility`. */
  function Heal(e: Engine, db: Tables): Tables {
    if e.supported then Run(e, db, Plan()) else db
  }

  class Database {
    var tables: Tables

    constructor (tables: Tables)
      ensures this.tables == tables
    {
      this.tables := tables;
    }

    method AddColumnsIfMissing(name: string, columns: seq<Column>)
      requires name in tables
      modifies this
      ensures tables == old(tables)[name := WithColumns(old(tables)[name], columns)]
    {
      var t := tables[name];
      for i := 0 to |columns|
        invariant t == WithColumns(old(tables)[name], columns[..i])
        invariant tables == old(tables)[name := t]
      {
        assert columns[..i + 1][..i] == columns[..i];
        if columns[i].name !in t.columns {
          t := AddColumn(t, columns[i]);
          tables := tables[name := t];
        }
      }
      assert columns[..|columns|] == columns;
    }

    /** One guarded block of the heal. */
    method ApplyStep(e: Engine, s: Step)
      modifies this
      ensures tables == Apply(e, old(tables), s)
    {
      match s
      case AddColumns(name, columns) =>
        if name in tables {
          AddColumnsIfMissing(name, columns);
        }
      case _ => tables := Apply(e, tables, s);
    }

    method EnsureSchemaCompatibility(e: Engine)
      modifies this
      ensures tables == Heal(e, old(tables))
    {
      hide Plan, Apply;
      if !e.supported {
        return;
      }
      var plan := Plan();
      for i := 0 to |plan|
        invariant tables == Run(e, old(tables), plan[..i])
      {
        assert plan[..i + 1][..i] == plan[..i];
        ApplyStep(e, plan[i]);
      }
      assert plan[..|plan|] == plan;
    }
  }

  // ---------------------------------------------------------------- when a step has nothing left to do

  /** The step would find nothing to change. */
  ghost predicate Healed(e: Engine, db: Tables, s: Step) {
    match s
    case AddColumns(name, columns) => name in db ==> Names(columns) <= db[name].columns
    case RaiseFingerprintFloor => "licenses" in db ==> Fixes(db["licenses"], RaiseFloor)
    case FixApiPort => "fleet_chr_nodes" in db ==> Fixes(db["fleet_chr_nodes"], FixPort)
    case MoveAllocationNode => "service_allocations" in db ==>
      var columns := db["service_allocations"].columns;
      LEGACY_NODE in columns ==> FLEET_NODE in columns && !e.dropsColumns
    case DropAllowList => "proxy_realm_routes" in db ==>
      LEGACY_ALLOW_LIST in db["proxy_realm_routes"].columns ==> !e.dropsColumns
    case DropLegacy(name) => name in db ==> !e.dropsTables
    case StampNode(name) => "fleet_chr_nodes" in db && name in db ==>
      var fleet := db["fleet_chr_nodes"].rows;
      Fixes(db[name], r => Stamp(fleet, r))
  }

  ghost predicate Fixes(t: Table, f: Row -> Row) {
    forall i :: 0 <= i < |t.rows| ==> f(t.rows[i]) == t.rows[i]
  }

  lemma {:induction false} WithColumnsShape(t: Table, columns: seq<Column>)
    ensures WithColumns(t, columns).columns == t.columns + Names(columns)
    ensures Names(columns) <= t.columns ==> WithColumns(t, columns) == t
    ensures |WithColumns(t, columns).rows| == |t.rows|
  {
    if columns != [] {
      var prefix := columns[..|columns| - 1];
      WithColumnsShape(t, prefix);
      assert columns == prefix + [columns[|columns| - 1]];
      assert Names(columns) == Names(prefix) + {columns[|columns| - 1].name};
    }
  }

  lemma FixedRows(t: Table, f: Row -> Row)
    requires Fixes(t, f)
    ensures MapRows(t, f) == t
  {
    assert MapRows(t, f).rows == t.rows;
  }

  lemma HealedIsFixpoint(e: Engine, db: Tables, s: Step)
    requires Healed(e, db, s)
    ensures Apply(e, db, s) == db
  {
    match s
    case AddColumns(name, columns) =>
      if name in db {
        WithColumnsShape(db[name], columns);
      }
    case RaiseFingerprintFloor =>
      if "licenses" in db {
        FixedRows(db["licenses"], RaiseFloor);
      }
    case FixApiPort =>
      if "fleet_chr_nodes" in db {
        FixedRows(db["fleet_chr_nodes"], FixPort);
      }
    case StampNode(name) =>
      if "fleet_chr_nodes" in db && name in db {
        var fleet := db["fleet_chr_nodes"].rows;
        FixedRows(db[name], r => Stamp(fleet, r));
      }
    case _ =>
  }

  lemma ApplyHeals(e: Engine, db: Tables, s: Step)
    requires s.StampNode? ==> s.table != "fleet_chr_nodes"
    ensures Healed(e, Apply(e, db, s), s)
  {
    match s
    case AddColumns(name, columns) =>
      if name in db {
        WithColumnsShape(db[name], columns);
      }
    case RaiseFingerprintFloor => assert forall r :: RaiseFloor(RaiseFloor(r)) == RaiseFloor(r);
    case FixApiPort => assert forall r :: FixPort(FixPort(r)) == FixPort(r);
    case _ =>
  }

  // ---------------------------------------------------------------- later steps do not undo earlier ones

  /** An additive step that brings back nothing a later step removes or rewrites. */
  predicate Harmless(s: Step) {
    match s
    case AddColumns(name, columns) =>
      && name != "service_allocations"
      && (name == "licenses" ==> MAX_FINGERPRINTS !in Names(columns))
      && (name == "fleet_chr_nodes" ==> API_PORT !in Names(columns))
      && (name == "proxy_realm_routes" ==> LEGACY_ALLOW_LIST !in Names(columns))
    case RaiseFingerprintFloor => true
    case FixApiPort => true
    case _ => false
  }

  predicate StampsTunnels(name: string) {
    name == "customer_vpn_tunnels" || name == "customer_wireguard_peers"
  }

  /** The order the plan keeps: `t` may come after `s` without giving it new work. */
  predicate MayFollow(t: Step, s: Step) {
    match t
    case AddColumns(_, _) => Harmless(t) && Harmless(s)
    case RaiseFingerprintFloor => Harmless(s)
    case FixApiPort => Harmless(s)
    case MoveAllocationNode => Harmless(s)
    case DropAllowList => Harmless(s) || s.MoveAllocationNode?
    case DropLegacy(_) => !s.StampNode?
    case StampNode(name) => StampsTunnels(name) && (s.StampNode? ==> StampsTunnels(s.table))
  }

  lemma {:induction false} AddedKeepsOthers(t: Table, columns: seq<Column>, i: nat, c: string)
    requires i < |t.rows| && c !in Names(columns)
    ensures |WithColumns(t, columns).rows| == |t.rows|
    ensures var r := WithColumns(t, columns).rows[i];
      (c in r <==> c in t.rows[i]) && (c in r ==> r[c] == t.rows[i][c])
  {
    if columns != [] {
      var prefix := columns[..|columns| - 1];
      assert columns == prefix + [columns[|columns| - 1]];
      AddedKeepsOthers(t, prefix, i, c);
      assert columns[|columns| - 1].name in Names(columns);
    }
  }

  lemma AddKeepsHealed(e: Engine, db: Tables, s: Step, name: string, columns: seq<Column>)
    requires Healed(e, db, s) && Harmless(AddColumns(name, columns)) && Harmless(s)
    ensures Healed(e, Apply(e, db, AddColumns(name, columns)), s)
  {
    if name in db {
      WithColumnsShape(db[name], columns);
      forall i, c | 0 <= i < |db[name].rows| && c !in Names(columns)
        ensures var r := WithColumns(db[name], columns).rows[i];
          (c in r <==> c in db[name].rows[i]) && (c in r ==> r[c] == db[name].rows[i][c])
      {
        AddedKeepsOthers(db[name], columns, i, c);
      }
      hide WithColumns;
    }
  }

  lemma FollowKeepsHealed(e: Engine, db: Tables, s: Step, t: Step)
    requires Healed(e, db, s) && MayFollow(t, s)
    ensures Healed(e, Apply(e, db, t), s)
  {
    match t
    case AddColumns(name, columns) =>
      hide Healed, Apply, Harmless;
      AddKeepsHealed(e, db, s, name, columns);
    case _ =>
      hide WithColumns;
  }

  ghost predicate InOrder(steps: seq<Step>) {
    && (forall i, j :: 0 <= i < j < |steps| ==> MayFollow(steps[j], steps[i]))
    && (forall i :: 0 <= i < |steps| && steps[i].StampNode? ==> StampsTunnels(steps[i].table))
  }

  lemma {:induction false} RunHealsAll(e: Engine, db: Tables, steps: seq<Step>)
    requires InOrder(steps)
    ensures forall i :: 0 <= i < |steps| ==> Healed(e, Run(e, db, steps), steps[i])
  {
    if steps != [] {
      hide Healed, Apply, MayFollow;
      var (prefix, s) := (steps[..|steps| - 1], steps[|steps| - 1]);
      RunHealsAll(e, db, prefix);
      var d := Run(e, db, prefix);
      ApplyHeals(e, d, s);
      forall i | 0 <= i < |prefix| ensures Healed(e, Apply(e, d, s), steps[i]) {
        assert Healed(e, d, prefix[i]);
        FollowKeepsHealed(e, d, steps[i], s);
      }
    }
  }

  lemma {:induction false} RunFixpoint(e: Engine, db: Tables, steps: seq<Step>)
    requires forall i :: 0 <= i < |steps| ==> Healed(e, db, steps[i])
    ensures Run(e, db, steps) == db
  {
    if steps != [] {
      hide Healed, Apply;
      RunFixpoint(e, db, steps[..|steps| - 1]);
      HealedIsFixpoint(e, db, steps[|steps| - 1]);
    }
  }

  lemma AdditiveStepsHarmless()
    ensures forall i :: 0 <= i < |ADDITIVE_STEPS| ==> Harmless(ADDITIVE_STEPS[i]) && !ADDITIVE_STEPS[i].StampNode?
  {
  }

  lemma EarlyColumn(i: nat, j: nat)
    requires i < 10 && ADDITIVE_STEPS[i].AddColumns? && j < |ADDITIVE_STEPS[i].columns|
    ensures KeepsLookup(ADDITIVE_STEPS[i].table, ADDITIVE_STEPS[i].columns[j])
  {
  }

  lemma TunnelColumn(j: nat)
    requires j < |ADDITIVE_STEPS[11].columns|
    ensures KeepsLookup("customer_vpn_tunnels", ADDITIVE_STEPS[11].columns[j])
  {
  }

  lemma LateColumn(i: nat, j: nat)
    requires 11 < i < |ADDITIVE_STEPS| && ADDITIVE_STEPS[i].AddColumns? && j < |ADDITIVE_STEPS[i].columns|
    ensures KeepsLookup(ADDITIVE_STEPS[i].table, ADDITIVE_STEPS[i].columns[j])
  {
  }

  lemma AdditiveColumn(i: nat, j: nat)
    requires i < |ADDITIVE_STEPS| && ADDITIVE_STEPS[i].AddColumns? && j < |ADDITIVE_STEPS[i].columns|
    ensures KeepsLookup(ADDITIVE_STEPS[i].table, ADDITIVE_STEPS[i].columns[j])
  {
    assert ADDITIVE_STEPS[10] == RaiseFingerprintFloor && ADDITIVE_STEPS[11].table == "customer_vpn_tunnels";
    hide ADDITIVE_STEPS, KeepsLookup;
    if i < 10 {
      EarlyColumn(i, j);
    } else if i == 11 {
      TunnelColumn(j);
    } else {
      LateColumn(i, j);
    }
  }

  lemma AdditiveStepsKeepLookups()
    ensures forall i :: 0 <= i < |ADDITIVE_STEPS| && ADDITIVE_STEPS[i].AddColumns? ==>
      KeepsLookups(ADDITIVE_STEPS[i].table, ADDITIVE_STEPS[i].columns)
  {
    hide *;
    forall i | 0 <= i < |ADDITIVE_STEPS| && ADDITIVE_STEPS[i].AddColumns?
      ensures KeepsLookups(ADDITIVE_STEPS[i].table, ADDITIVE_STEPS[i].columns)
    {
      forall j | 0 <= j < |ADDITIVE_STEPS[i].columns|
        ensures KeepsLookup(ADDITIVE_STEPS[i].table, ADDITIVE_STEPS[i].columns[j])
      {
        AdditiveColumn(i, j);
      }
      LookupsKept(ADDITIVE_STEPS[i].table, ADDITIVE_STEPS[i].columns);
    }
  }

  lemma PlanInOrder()
    ensures InOrder(Plan())
  {
    AdditiveStepsHarmless();
    hide ADDITIVE_STEPS;
    var (n, plan) := (|ADDITIVE_STEPS|, Plan());
    assert forall j :: 0 <= j < |plan| ==> plan[j] == if j < n then ADDITIVE_STEPS[j] else LEGACY_STEPS[j - n];
    forall i, j | 0 <= i < j < |plan| ensures MayFollow(plan[j], plan[i]) {
      if j < n {
        HarmlessMayFollow(plan[j], plan[i]);
      }
    }
  }

  lemma HarmlessMayFollow(t: Step, s: Step)
    requires Harmless(t) && Harmless(s)
    ensures MayFollow(t, s)
  {
  }

  /** Healing a second time changes nothing, whatever database it started from. */
  lemma HealIdempotent(e: Engine, db: Tables)
    ensures Heal(e, Heal(e, db)) == Heal(e, db)
  {
    if e.supported {
      hide Plan, InOrder;
      PlanInOrder();
      RunHealsAll(e, db, Plan());
      RunFixpoint(e, Run(e, db, Plan()), Plan());
    }
  }

  /**
   * After the heal no step has work left: every present table has its planned columns, no license is below
   * the floor, no node dials the old port, and a tunnel without a node has no node at its address.
   */
  lemma HealLeavesNoWork(e: Engine, db: Tables, i: nat)
    requires e.supported && i < |Plan()|
    ensures Healed(e, Heal(e, db), Plan()[i])
  {
    PlanInOrder();
    hide Plan, InOrder, Healed;
    RunHealsAll(e, db, Plan());
  }

  // ---------------------------------------------------------------- what the heal keeps

  predicate LegacyTable(name: string) {
    name == "chr_node_metrics" || name == "chr_nodes"
  }

  /** The two columns the heal may take away. */
  predicate Removed(name: string, c: string) {
    (name == "service_allocations" && c == LEGACY_NODE) || (name == "proxy_realm_routes" && c == LEGACY_ALLOW_LIST)
  }

  /** The rows of the fleet registry, if the table is there. */
  type Registry = Option<seq<Row>>

  function Fleet(db: Tables): Registry {
    if "fleet_chr_nodes" in db then Some(db["fleet_chr_nodes"].rows) else None
  }

  /** The address a tunnel or peer was provisioned on; empty where the column is missing. */
  function Host(r: Row): Value {
    if "chr_host" in r then r["chr_host"] else EMPTY
  }

  /** What the heal makes of a cell: a raised floor, a corrected port, the node at the row's host, or no change. */
  function Corrected(fleet: Registry, name: string, c: string, host: Value, v: Value): Value {
    if name == "licenses" && c == MAX_FINGERPRINTS && v.Number? && v.n < 3 then Number(3)
    else if name == "fleet_chr_nodes" && c == API_PORT && v == Number(8729) then Number(8443)
    else if StampsTunnels(name) && c == FLEET_NODE && v == Null && host.Text? && host != EMPTY && fleet.Some? then
      NodeAt(fleet.value, host)
    else v
  }

  /** A cell holds its corrected value or, while the heal is not `done`, still the one it had. */
  predicate CellKept(done: bool, fleet: Registry, name: string, c: string, host: Value, before: Value, after: Value) {
    after == Corrected(fleet, name, c, host, before) || (!done && after == before)
  }

  ghost predicate RowKept(done: bool, fleet: Registry, name: string, before: Row, after: Row) {
    && Host(after) == Host(before)
    && forall c :: c in before && !Removed(name, c) ==>
         c in after && CellKept(done, fleet, name, c, Host(before), before[c], after[c])
  }

  ghost predicate TableKept(done: bool, fleet: Registry, name: string, before: Table, after: Table) {
    && |after.rows| == |before.rows|
    && (forall c :: c in before.columns && !Removed(name, c) ==> c in after.columns)
    && (forall i :: 0 <= i < |before.rows| ==> RowKept(done, fleet, name, before.rows[i], after.rows[i]))
  }

  ghost predicate Kept(done: bool, fleet: Registry, before: Tables, after: Tables) {
    && after.Keys <= before.Keys
    && (forall name :: name in before ==> name in after || LegacyTable(name))
    && (forall name :: name in after ==> TableKept(done, fleet, name, before[name], after[name]))
  }

  predicate Expected(s: Step) {
    match s
    case DropLegacy(name) => LegacyTable(name)
    case StampNode(name) => StampsTunnels(name)
    case AddColumns(name, columns) => Harmless(s) && KeepsLookups(name, columns)
    case _ => true
  }

  /** The new columns give no row a host or a node, and no node an address or an id. */
  predicate KeepsLookups(name: string, columns: seq<Column>) {
    forall c :: c in columns ==> KeepsLookup(name, c)
  }

  predicate KeepsLookup(name: string, c: Column) {
    && (c.name == "chr_host" ==> c.default == EMPTY)
    && (c.name == FLEET_NODE ==> c.default == Null)
    && (name == "fleet_chr_nodes" ==> c.name != "public_ip" && c.name != "id")
  }

  lemma LookupsKept(name: string, columns: seq<Column>)
    requires forall j :: 0 <= j < |columns| ==> KeepsLookup(name, columns[j])
    ensures KeepsLookups(name, columns)
  {
  }

  /** The two registries find the same node at every address. */
  ghost predicate SameNodes(a: Registry, b: Registry) {
    && (a.Some? <==> b.Some?)
    && forall ip :: a.Some? ==> NodeAt(a.value, ip) == NodeAt(b.value, ip)
  }

  predicate SameLookup(r: Row, s: Row) {
    && ("public_ip" in r && "id" in r <==> "public_ip" in s && "id" in s)
    && ("public_ip" in r && "id" in r ==> r["public_ip"] == s["public_ip"] && r["id"] == s["id"])
  }

  lemma {:induction false} SameLookups(a: seq<Row>, b: seq<Row>)
    requires |a| == |b| && forall i :: 0 <= i < |a| ==> SameLookup(a[i], b[i])
    ensures SameNodes(Some(a), Some(b))
  {
    forall ip ensures NodeAt(a, ip) == NodeAt(b, ip) {
      if a != [] {
        SameLookups(a[1..], b[1..]);
        assert SameLookup(a[0], b[0]);
      }
    }
  }

  lemma PortKeepsLookup(r: Row)
    ensures SameLookup(r, FixPort(r))
  {
  }

  /** No step changes which node is found at an address. */
  lemma ApplyKeepsNodes(e: Engine, db: Tables, s: Step)
    requires Expected(s)
    ensures SameNodes(Fleet(db), Fleet(Apply(e, db, s)))
  {
    if "fleet_chr_nodes" in db {
      var (t, u) := (db["fleet_chr_nodes"], Apply(e, db, s)["fleet_chr_nodes"]);
      if s.AddColumns? && s.table == "fleet_chr_nodes" {
        WithColumnsShape(t, s.columns);
        forall i | 0 <= i < |t.rows| ensures SameLookup(t.rows[i], u.rows[i]) {
          AddedKeepsOthers(t, s.columns, i, "public_ip");
          AddedKeepsOthers(t, s.columns, i, "id");
        }
      } else if s == FixApiPort {
        forall i | 0 <= i < |t.rows| ensures SameLookup(t.rows[i], u.rows[i]) {
          assert u.rows[i] == FixPort(t.rows[i]);
          PortKeepsLookup(t.rows[i]);
        }
      } else {
        assert t == u;
      }
      hide NodeAt, WithColumns;
      SameLookups(t.rows, u.rows);
    }
  }

  lemma {:induction false} WithColumnsKeeps(fleet: Registry, name: string, t: Table, columns: seq<Column>)
    requires RectangularTable(t) && forall c :: c in columns && c.name == "chr_host" ==> c.default == EMPTY
    ensures RectangularTable(WithColumns(t, columns)) && TableKept(false, fleet, name, t, WithColumns(t, columns))
  {
    if columns != [] {
      var prefix := columns[..|columns| - 1];
      WithColumnsKeeps(fleet, name, t, prefix);
      var (u, c) := (WithColumns(t, prefix), columns[|columns| - 1]);
      assert RectangularTable(AddColumn(u, c)) && TableKept(false, fleet, name, u, AddColumn(u, c));
      TableKeptTransitive(fleet, name, t, u, AddColumn(u, c));
    }
  }

  /** Correcting a cell a second time does nothing. */
  lemma CorrectedOnce(fleet: Registry, name: string, c: string, host: Value, v: Value)
    ensures var w := Corrected(fleet, name, c, host, v); Corrected(fleet, name, c, host, w) == w
  {
  }

  lemma TableKeptTransitive(fleet: Registry, name: string, a: Table, b: Table, c: Table)
    requires TableKept(false, fleet, name, a, b) && TableKept(false, fleet, name, b, c)
    ensures TableKept(false, fleet, name, a, c)
  {
    hide Corrected;
    forall i | 0 <= i < |a.rows| ensures RowKept(false, fleet, name, a.rows[i], c.rows[i]) {
      assert RowKept(false, fleet, name, a.rows[i], b.rows[i]) && RowKept(false, fleet, name, b.rows[i], c.rows[i]);
      forall col | col in a.rows[i] && !Removed(name, col)
        ensures CellKept(false, fleet, name, col, Host(a.rows[i]), a.rows[i][col], c.rows[i][col])
      {
        CorrectedOnce(fleet, name, col, Host(a.rows[i]), a.rows[i][col]);
      }
    }
  }

  lemma MapRowsKeeps(fleet: Registry, name: string, t: Table, f: Row -> Row)
    requires RectangularTable(t)
    requires forall r :: f(r).Keys == r.Keys && RowKept(false, fleet, name, r, f(r))
    ensures RectangularTable(MapRows(t, f)) && TableKept(false, fleet, name, t, MapRows(t, f))
  {
  }

  lemma TableReplaced(fleet: Registry, db: Tables, name: string, t: Table)
    requires Rectangular(db) && name in db && RectangularTable(t) && TableKept(false, fleet, name, db[name], t)
    ensures Rectangular(db[name := t]) && Kept(false, fleet, db, db[name := t])
  {
    KeptReflexive(fleet, db);
    hide RectangularTable, TableKept;
  }

  lemma MoveNodeKeeps(fleet: Registry, e: Engine, t: Table)
    requires RectangularTable(t)
    ensures RectangularTable(MoveNode(e, t)) && TableKept(false, fleet, "service_allocations", t, MoveNode(e, t))
  {
  }

  lemma DropAllowListKeeps(fleet: Registry, e: Engine, t: Table)
    requires RectangularTable(t)
    ensures RectangularTable(DropOldAllowList(e, t)) && TableKept(false, fleet, "proxy_realm_routes", t, DropOldAllowList(e, t))
  {
  }

  /** Each kind of step keeps the rows and cells of its table. */
  lemma ApplyKeeps(fleet: Registry, e: Engine, db: Tables, s: Step)
    requires Rectangular(db) && Expected(s) && SameNodes(fleet, Fleet(db))
    ensures Rectangular(Apply(e, db, s)) && Kept(false, fleet, db, Apply(e, db, s))
  {
    KeptReflexive(fleet, db);
    hide Kept, TableKept, RectangularTable, WithColumns, MoveNode, DropOldAllowList, MapRows, SameNodes, Harmless, KeepsLookups;
    match s
    case AddColumns(name, columns) =>
      if name in db {
        HostDefault(name, columns);
        WithColumnsKeeps(fleet, name, db[name], columns);
        TableReplaced(fleet, db, name, WithColumns(db[name], columns));
      }
    case RaiseFingerprintFloor =>
      if "licenses" in db {
        RaiseFloorKeeps(fleet, db["licenses"]);
        TableReplaced(fleet, db, "licenses", MapRows(db["licenses"], RaiseFloor));
      }
    case FixApiPort =>
      if "fleet_chr_nodes" in db {
        FixPortKeeps(fleet, db["fleet_chr_nodes"]);
        TableReplaced(fleet, db, "fleet_chr_nodes", MapRows(db["fleet_chr_nodes"], FixPort));
      }
    case MoveAllocationNode =>
      if "service_allocations" in db {
        MoveNodeKeeps(fleet, e, db["service_allocations"]);
        TableReplaced(fleet, db, "service_allocations", MoveNode(e, db["service_allocations"]));
      }
    case DropAllowList =>
      if "proxy_realm_routes" in db {
        DropAllowListKeeps(fleet, e, db["proxy_realm_routes"]);
        TableReplaced(fleet, db, "proxy_realm_routes", DropOldAllowList(e, db["proxy_realm_routes"]));
      }
    case DropLegacy(name) => DropLegacyKeeps(fleet, db, name);
    case StampNode(name) =>
      if "fleet_chr_nodes" in db && name in db {
        var nodes := db["fleet_chr_nodes"].rows;
        StampKeeps(fleet, name, db[name], nodes);
        TableReplaced(fleet, db, name, MapRows(db[name], r => Stamp(nodes, r)));
      }
  }

  lemma HostDefault(name: string, columns: seq<Column>)
    requires KeepsLookups(name, columns)
    ensures forall c :: c in columns && c.name == "chr_host" ==> c.default == EMPTY
  {
  }

  lemma RaiseFloorKeeps(fleet: Registry, t: Table)
    requires RectangularTable(t)
    ensures RectangularTable(MapRows(t, RaiseFloor)) && TableKept(false, fleet, "licenses", t, MapRows(t, RaiseFloor))
  {
    MapRowsKeeps(fleet, "licenses", t, RaiseFloor);
  }

  lemma FixPortKeeps(fleet: Registry, t: Table)
    requires RectangularTable(t)
    ensures RectangularTable(MapRows(t, FixPort)) && TableKept(false, fleet, "fleet_chr_nodes", t, MapRows(t, FixPort))
  {
    MapRowsKeeps(fleet, "fleet_chr_nodes", t, FixPort);
  }

  lemma StampKeeps(fleet: Registry, name: string, t: Table, nodes: seq<Row>)
    requires RectangularTable(t) && StampsTunnels(name) && SameNodes(fleet, Some(nodes))
    ensures RectangularTable(MapRows(t, r => Stamp(nodes, r))) && TableKept(false, fleet, name, t, MapRows(t, r => Stamp(nodes, r)))
  {
    forall r ensures Stamp(nodes, r).Keys == r.Keys && RowKept(false, fleet, name, r, Stamp(nodes, r)) {
      StampedRowKept(fleet, name, r, nodes);
    }
    MapRowsKeeps(fleet, name, t, r => Stamp(nodes, r));
  }

  lemma StampedRowKept(fleet: Registry, name: string, r: Row, nodes: seq<Row>)
    requires StampsTunnels(name) && SameNodes(fleet, Some(nodes))
    ensures Stamp(nodes, r).Keys == r.Keys && RowKept(false, fleet, name, r, Stamp(nodes, r))
  {
    hide NodeAt;
  }

  lemma DropLegacyKeeps(fleet: Registry, db: Tables, name: string)
    requires Rectangular(db) && LegacyTable(name)
    ensures Rectangular(db - {name}) && Kept(false, fleet, db, db - {name})
  {
    KeptReflexive(fleet, db);
    hide RectangularTable, TableKept;
  }

  lemma KeptTransitive(fleet: Registry, a: Tables, b: Tables, c: Tables)
    requires Kept(false, fleet, a, b) && Kept(false, fleet, b, c)
    ensures Kept(false, fleet, a, c)
  {
    forall name | name in c ensures TableKept(false, fleet, name, a[name], c[name]) {
      TableKeptTransitive(fleet, name, a[name], b[name], c[name]);
    }
  }

  lemma {:induction false} RunKeeps(fleet: Registry, e: Engine, db: Tables, steps: seq<Step>)
    requires Rectangular(db) && SameNodes(fleet, Fleet(db)) && forall i :: 0 <= i < |steps| ==> Expected(steps[i])
    ensures Rectangular(Run(e, db, steps)) && Kept(false, fleet, db, Run(e, db, steps))
    ensures SameNodes(fleet, Fleet(Run(e, db, steps)))
  {
    if steps != [] {
      hide Rectangular, Kept, Apply, Expected, SameNodes, Fleet;
      var prefix := steps[..|steps| - 1];
      RunKeeps(fleet, e, db, prefix);
      ApplyKeeps(fleet, e, Run(e, db, prefix), steps[|steps| - 1]);
      ApplyKeepsNodes(e, Run(e, db, prefix), steps[|steps| - 1]);
      SameNodesTransitive(fleet, Fleet(Run(e, db, prefix)), Fleet(Run(e, db, steps)));
      KeptTransitive(fleet, db, Run(e, db, prefix), Run(e, db, steps));
    } else {
      KeptReflexive(fleet, db);
    }
  }

  lemma SameNodesTransitive(a: Registry, b: Registry, c: Registry)
    requires SameNodes(a, b) && SameNodes(b, c)
    ensures SameNodes(a, c)
  {
    hide NodeAt;
  }

  lemma KeptReflexive(fleet: Registry, db: Tables)
    ensures Kept(false, fleet, db, db)
  {
  }

  lemma PlanExpected()
    ensures forall i :: 0 <= i < |Plan()| ==> Expected(Plan()[i])
  {
    AdditiveStepsHarmless();
    AdditiveStepsKeepLookups();
    hide ADDITIVE_STEPS, KeepsLookups;
    var (n, plan) := (|ADDITIVE_STEPS|, Plan());
    assert forall j :: 0 <= j < |plan| ==> plan[j] == if j < n then ADDITIVE_STEPS[j] else LEGACY_STEPS[j - n];
  }

  /** No cell of the table has a correction left. */
  ghost predicate Settled(fleet: Registry, name: string, t: Table) {
    forall i, c :: 0 <= i < |t.rows| && c in t.rows[i] ==> CellSettled(fleet, name, c, t.rows[i])
  }

  predicate CellSettled(fleet: Registry, name: string, c: string, r: Row)
    requires c in r
  {
    Corrected(fleet, name, c, Host(r), r[c]) == r[c]
  }

  /** The steps that correct cells are in the plan. */
  lemma CorrectionsPlanned(s: Step) returns (i: nat)
    requires s == RaiseFingerprintFloor || s == FixApiPort || (s.StampNode? && StampsTunnels(s.table))
    ensures i < |Plan()| && Plan()[i] == s
  {
    var n := |ADDITIVE_STEPS|;
    i := if s == RaiseFingerprintFloor then 10 else if s == FixApiPort then 17
      else if s.table == "customer_vpn_tunnels" then n + 4 else n + 5;
    assert ADDITIVE_STEPS[10] == RaiseFingerprintFloor && ADDITIVE_STEPS[17] == FixApiPort;
    hide ADDITIVE_STEPS;
    assert i >= n ==> Plan()[i] == LEGACY_STEPS[i - n];
  }

  /** A table on which every correcting step is a fixpoint has no correction left. */
  lemma FixpointSettled(e: Engine, db: Tables, name: string)
    requires name in db
    requires Healed(e, db, RaiseFingerprintFloor) && Healed(e, db, FixApiPort)
    requires StampsTunnels(name) ==> Healed(e, db, StampNode(name))
    ensures Settled(Fleet(db), name, db[name])
  {
    hide NodeAt;
    forall i, c | 0 <= i < |db[name].rows| && c in db[name].rows[i]
      ensures CellSettled(Fleet(db), name, c, db[name].rows[i])
    {
      var r := db[name].rows[i];
      if StampsTunnels(name) && Fleet(db).Some? {
        assert Stamp(Fleet(db).value, r) == r;
      } else if name == "licenses" {
        assert RaiseFloor(r) == r;
      } else if name == "fleet_chr_nodes" {
        assert FixPort(r) == r;
      }
    }
  }

  lemma HealSettles(e: Engine, db: Tables, name: string)
    requires e.supported && name in Heal(e, db)
    ensures Settled(Fleet(Heal(e, db)), name, Heal(e, db)[name])
  {
    hide Plan, Healed, Settled, Heal;
    var i := CorrectionsPlanned(RaiseFingerprintFloor);
    HealLeavesNoWork(e, db, i);
    i := CorrectionsPlanned(FixApiPort);
    HealLeavesNoWork(e, db, i);
    if StampsTunnels(name) {
      i := CorrectionsPlanned(StampNode(name));
      HealLeavesNoWork(e, db, i);
    }
    FixpointSettled(e, Heal(e, db), name);
  }

  lemma CorrectedAlike(fleet: Registry, nodes: Registry, name: string, c: string, host: Value, v: Value)
    requires SameNodes(fleet, nodes)
    ensures Corrected(fleet, name, c, host, v) == Corrected(nodes, name, c, host, v)
  {
    hide NodeAt;
  }

  /** Once a table is settled, every cell it kept is a corrected one. */
  lemma SettledDone(fleet: Registry, nodes: Registry, name: string, before: Table, after: Table)
    requires TableKept(false, fleet, name, before, after) && Settled(nodes, name, after) && SameNodes(fleet, nodes)
    ensures TableKept(true, fleet, name, before, after)
  {
    hide Corrected, SameNodes;
    forall i | 0 <= i < |before.rows| ensures RowKept(true, fleet, name, before.rows[i], after.rows[i]) {
      var (r, s) := (before.rows[i], after.rows[i]);
      assert RowKept(false, fleet, name, r, s);
      forall c | c in r && !Removed(name, c) ensures CellKept(true, fleet, name, c, Host(r), r[c], s[c]) {
        assert CellSettled(nodes, name, c, s);
        CorrectedAlike(fleet, nodes, name, c, Host(r), s[c]);
      }
    }
  }

  /**
   * The heal keeps every table but the two legacy ones, every row and every column but two; a cell of these
   * holds what `Corrected` makes of it, which for all but three columns is what it held before.
   */
  lemma HealKeepsData(e: Engine, db: Tables)
    requires Rectangular(db)
    ensures Rectangular(Heal(e, db)) && Kept(e.supported, Fleet(db), db, Heal(e, db))
    ensures SameNodes(Fleet(db), Fleet(Heal(e, db)))
    ensures !e.supported ==> Heal(e, db) == db
  {
    if e.supported {
      PlanExpected();
      RunKeeps(Fleet(db), e, db, Plan());
      var after := Heal(e, db);
      assert after == Run(e, db, Plan());
      hide Plan, Heal, TableKept, Settled, SameNodes, Fleet, Rectangular;
      forall name | name in after ensures TableKept(true, Fleet(db), name, db[name], after[name]) {
        HealSettles(e, db, name);
        SettledDone(Fleet(db), Fleet(after), name, db[name], after[name]);
      }
    } else {
      KeptReflexive(Fleet(db), db);
    }
  }

  // ---------------------------------------------------------------- what the heal adds

  /** Where the heal may find the value a new column starts with. */
  ghost predicate Starts(steps: seq<Step>, name: string, c: string, d: Value) {
    || (name == "service_allocations" && c == FLEET_NODE && d == Null)
    || exists k :: 0 <= k < |steps| && steps[k].AddColumns? && steps[k].table == name && Column(c, d) in steps[k].columns
  }

  ghost predicate Filled(done: bool, fleet: Registry, t: Table, name: string, c: string, d: Value) {
    forall i :: 0 <= i < |t.rows| ==> c in t.rows[i] && CellKept(done, fleet, name, c, Host(t.rows[i]), d, t.rows[i][c])
  }

  /** Every new column is one the steps define, and starts in every row with its default. */
  ghost predicate Explained(done: bool, fleet: Registry, before: Tables, after: Tables, steps: seq<Step>) {
    forall name, c :: name in after && c in after[name].columns && (name in before ==> c !in before[name].columns) ==>
      !Removed(name, c) && exists d :: Starts(steps, name, c, d) && Filled(done, fleet, after[name], name, c, d)
  }

  lemma {:induction false} WithColumnsDefault(t: Table, columns: seq<Column>, c: string) returns (d: Value)
    requires c in WithColumns(t, columns).columns && c !in t.columns
    ensures Column(c, d) in columns
    ensures var rows := WithColumns(t, columns).rows;
      |rows| == |t.rows| && forall i :: 0 <= i < |rows| ==> c in rows[i] && rows[i][c] == d
  {
    var prefix := columns[..|columns| - 1];
    WithColumnsShape(t, prefix);
    if c in WithColumns(t, prefix).columns {
      d := WithColumnsDefault(t, prefix, c);
      assert columns == prefix + [columns[|columns| - 1]];
    } else {
      d := columns[|columns| - 1].default;
    }
  }

  /** A column that appears in one step is explained by that step alone. */
  lemma NewColumn(fleet: Registry, e: Engine, db: Tables, s: Step, name: string, c: string) returns (d: Value)
    requires Expected(s) && name in db && name in Apply(e, db, s)
    requires c in Apply(e, db, s)[name].columns && c !in db[name].columns
    ensures Starts([s], name, c, d) && Filled(false, fleet, Apply(e, db, s)[name], name, c, d) && !Removed(name, c)
  {
    match s
    case AddColumns(table, columns) =>
      WithColumnsShape(db[name], columns);
      d := WithColumnsDefault(db[name], columns, c);
      assert Column(c, d) in [s][0].columns;
    case MoveAllocationNode => d := Null;
    case _ => d := Null;
  }

  lemma FilledKept(fleet: Registry, before: Table, after: Table, name: string, c: string, d: Value)
    requires Filled(false, fleet, before, name, c, d) && TableKept(false, fleet, name, before, after) && !Removed(name, c)
    ensures Filled(false, fleet, after, name, c, d)
  {
    hide Corrected;
    forall i | 0 <= i < |after.rows|
      ensures c in after.rows[i] && CellKept(false, fleet, name, c, Host(after.rows[i]), d, after.rows[i][c])
    {
      assert RowKept(false, fleet, name, before.rows[i], after.rows[i]);
      CorrectedOnce(fleet, name, c, Host(before.rows[i]), d);
    }
  }

  lemma StartsMore(steps: seq<Step>, more: seq<Step>, name: string, c: string, d: Value)
    requires Starts(steps, name, c, d) && forall s :: s in steps ==> s in more
    ensures Starts(more, name, c, d)
  {
    if !(name == "service_allocations" && c == FLEET_NODE && d == Null) {
      var k :| 0 <= k < |steps| && steps[k].AddColumns? && steps[k].table == name && Column(c, d) in steps[k].columns;
      assert steps[k] in more;
      var j :| 0 <= j < |more| && more[j] == steps[k];
    }
  }

  lemma {:induction false} RunExplained(fleet: Registry, e: Engine, db: Tables, steps: seq<Step>)
    requires Rectangular(db) && SameNodes(fleet, Fleet(db)) && forall i :: 0 <= i < |steps| ==> Expected(steps[i])
    ensures Explained(false, fleet, db, Run(e, db, steps), steps)
  {
    if steps != [] {
      var (prefix, s) := (steps[..|steps| - 1], steps[|steps| - 1]);
      RunExplained(fleet, e, db, prefix);
      RunKeeps(fleet, e, db, prefix);
      var mid := Run(e, db, prefix);
      ApplyKeeps(fleet, e, mid, s);
      var after := Run(e, db, steps);
      hide Apply, Expected, Starts, Filled, TableKept, Removed, SameNodes;
      assert after == Apply(e, mid, s);
      forall name, c | name in after && c in after[name].columns && (name in db ==> c !in db[name].columns)
        ensures !Removed(name, c) && exists d :: Starts(steps, name, c, d) && Filled(false, fleet, after[name], name, c, d)
      {
        if c in mid[name].columns {
          var d :| Starts(prefix, name, c, d) && Filled(false, fleet, mid[name], name, c, d);
          FilledKept(fleet, mid[name], after[name], name, c, d);
          StartsMore(prefix, steps, name, c, d);
        } else {
          var d := NewColumn(fleet, e, mid, s, name, c);
          StartsMore([s], steps, name, c, d);
        }
      }
    }
  }

  lemma FilledDone(fleet: Registry, nodes: Registry, t: Table, name: string, c: string, d: Value)
    requires Filled(false, fleet, t, name, c, d) && Settled(nodes, name, t) && SameNodes(fleet, nodes)
    ensures Filled(true, fleet, t, name, c, d)
  {
    hide Corrected, SameNodes;
    forall i | 0 <= i < |t.rows| ensures CellKept(true, fleet, name, c, Host(t.rows[i]), d, t.rows[i][c]) {
      assert CellSettled(nodes, name, c, t.rows[i]);
      CorrectedAlike(fleet, nodes, name, c, Host(t.rows[i]), t.rows[i][c]);
    }
  }

  /**
   * A column the heal brings in is listed in the plan, and every row holds what `Corrected` makes of its
   * default: the default itself or, in a new node column, the node found for the row.
   */
  lemma HealFillsDefaults(e: Engine, db: Tables)
    requires Rectangular(db) && e.supported
    ensures Explained(true, Fleet(db), db, Heal(e, db), Plan())
  {
    PlanExpected();
    var (fleet, after, plan) := (Fleet(db), Heal(e, db), Plan());
    RunExplained(fleet, e, db, plan);
    RunKeeps(fleet, e, db, plan);
    assert after == Run(e, db, plan);
    hide Plan, Heal, Starts, Filled, Settled, SameNodes, Fleet, Removed, Kept, Rectangular;
    forall name, c | name in after && c in after[name].columns && (name in db ==> c !in db[name].columns)
      ensures !Removed(name, c) && exists d :: Starts(plan, name, c, d) && Filled(true, fleet, after[name], name, c, d)
    {
      var d :| Starts(plan, name, c, d) && Filled(false, fleet, after[name], name, c, d);
      HealSettles(e, db, name);
      FilledDone(fleet, Fleet(after), after[name], name, c, d);
    }
  }

  // ---------------------------------------------------------------- whose node a row is stamped with

  /** The registry's own constraint: no two nodes share a public address. */
  predicate UniqueAddresses(fleet: seq<Row>) {
    forall i, j :: 0 <= i < j < |fleet| && "public_ip" in fleet[i] && "public_ip" in fleet[j] ==>
      fleet[i]["public_ip"] != fleet[j]["public_ip"]
  }

  /** An address is looked up to the id of the one node that has it, and to NULL when none does. */
  lemma {:induction false} NodeAtExact(fleet: seq<Row>, ip: Value)
    requires UniqueAddresses(fleet) && forall i :: 0 <= i < |fleet| ==> "id" in fleet[i]
    ensures forall i :: 0 <= i < |fleet| && "public_ip" in fleet[i] && fleet[i]["public_ip"] == ip ==>
      NodeAt(fleet, ip) == fleet[i]["id"]
    ensures (forall i :: 0 <= i < |fleet| && "public_ip" in fleet[i] ==> fleet[i]["public_ip"] != ip) ==>
      NodeAt(fleet, ip) == Null
  {
    if fleet != [] {
      NodeAtExact(fleet[1..], ip);
    }
  }

  /** The node a row pointed at before the heal, NULL if there was no such column. */
  function NodeOf(r: Row): Value {
    if FLEET_NODE in r then r[FLEET_NODE] else Null
  }

  predicate HasAddress(v: Value) {
    v.Text? && v != EMPTY
  }

  lemma NodeColumnPlanned(e: Engine, db: Tables, name: string)
    requires e.supported && StampsTunnels(name) && name in Heal(e, db)
    ensures FLEET_NODE in Heal(e, db)[name].columns
  {
    var (n, s) := (|ADDITIVE_STEPS|, AddColumns(name, [Column(FLEET_NODE, Null)]));
    var i := if name == "customer_vpn_tunnels" then n - 2 else n - 1;
    assert Plan()[i] == ADDITIVE_STEPS[i] == s;
    HealLeavesNoWork(e, db, i);
    hide Plan, Heal, ADDITIVE_STEPS;
    assert FLEET_NODE in Names(s.columns) by {
      assert s.columns[0].name == FLEET_NODE;
    }
  }

  lemma NodeDefault(name: string, d: Value)
    requires Starts(Plan(), name, FLEET_NODE, d)
    ensures d == Null
  {
    PlanExpected();
    hide Plan, Harmless;
    if !(name == "service_allocations" && d == Null) {
      var k :| 0 <= k < |Plan()| && Plan()[k].AddColumns? && Plan()[k].table == name && Column(FLEET_NODE, d) in Plan()[k].columns;
      assert KeepsLookups(Plan()[k].table, Plan()[k].columns);
    }
  }

  /**
   * After the heal every tunnel and peer that pointed at no node points at the node its address finds in the
   * healed registry, if it has an address and there is a registry; every other one points where it did.
   */
  lemma HealStampsNodes(e: Engine, db: Tables, name: string, i: nat)
    requires Rectangular(db) && e.supported && name in {"customer_vpn_tunnels", "customer_wireguard_peers"} && name in db && i < |db[name].rows|
    ensures var after := Heal(e, db);
      && name in after && |after[name].rows| == |db[name].rows| && "fleet_chr_node_id" in after[name].rows[i]
      && ("fleet_chr_nodes" in after <==> "fleet_chr_nodes" in db)
      && var (r, node) := (db[name].rows[i], after[name].rows[i]["fleet_chr_node_id"]);
         node == if NodeOf(r) == Null && HasAddress(Host(r)) && "fleet_chr_nodes" in after
           then NodeAt(after["fleet_chr_nodes"].rows, Host(r)) else NodeOf(r)
  {
    var after := Heal(e, db);
    HealKeepsData(e, db);
    HealFillsDefaults(e, db);
    NodeColumnPlanned(e, db, name);
    hide Plan, Heal, NodeAt;
    var (r, s) := (db[name].rows[i], after[name].rows[i]);
    assert TableKept(true, Fleet(db), name, db[name], after[name]);
    assert RowKept(true, Fleet(db), name, r, s);
    if FLEET_NODE !in r {
      var d :| Starts(Plan(), name, FLEET_NODE, d) && Filled(true, Fleet(db), after[name], name, FLEET_NODE, d);
      NodeDefault(name, d);
    }
    CorrectedAlike(Fleet(db), Fleet(after), name, FLEET_NODE, Host(r), NodeOf(r));
  }

  /** Which is the id of the one node with that address, or NULL when there is none. */
  lemma HealFindsNode(e: Engine, db: Tables, name: string, i: nat)
    requires Rectangular(db) && e.supported && name in {"customer_vpn_tunnels", "customer_wireguard_peers"} && name in db && i < |db[name].rows|
    requires "fleet_chr_nodes" in db && {"id", "public_ip"} <= db["fleet_chr_nodes"].columns
    requires UniqueAddresses(db["fleet_chr_nodes"].rows)
    requires NodeOf(db[name].rows[i]) == Null && HasAddress(Host(db[name].rows[i]))
    ensures var (after, nodes) := (Heal(e, db), db["fleet_chr_nodes"].rows);
      && name in after && |after[name].rows| == |db[name].rows| && "fleet_chr_node_id" in after[name].rows[i]
      && var (host, node) := (Host(db[name].rows[i]), after[name].rows[i]["fleet_chr_node_id"]);
         && (forall k :: 0 <= k < |nodes| && nodes[k]["public_ip"] == host ==> node == nodes[k]["id"])
         && ((forall k :: 0 <= k < |nodes| ==> nodes[k]["public_ip"] != host) ==> node == Null)
  {
    HealStampsNodes(e, db, name, i);
    HealKeepsData(e, db);
    NodeAtExact(db["fleet_chr_nodes"].rows, Host(db[name].rows[i]));
    hide Heal, NodeAt, Kept;
  }

  // ---------------------------------------------------------------- no allocation keeps a legacy node id

  predicate Touches(s: Step, name: string) {
    match s
    case AddColumns(table, _) => table == name
    case RaiseFingerprintFloor => name == "licenses"
    case FixApiPort => name == "fleet_chr_nodes"
    case MoveAllocationNode => name == "service_allocations"
    case DropAllowList => name == "proxy_realm_routes"
    case DropLegacy(table) => table == name
    case StampNode(table) => table == name
  }

  lemma {:induction false} Untouched(e: Engine, db: Tables, steps: seq<Step>, name: string)
    requires forall i :: 0 <= i < |steps| ==> !Touches(steps[i], name)
    ensures name in Run(e, db, steps) <==> name in db
    ensures name in db ==> Run(e, db, steps)[name] == db[name]
  {
    if steps != [] {
      Untouched(e, db, steps[..|steps| - 1], name);
    }
  }

  lemma {:induction false} RunConcat(e: Engine, db: Tables, a: seq<Step>, b: seq<Step>)
    ensures Run(e, db, a + b) == Run(e, Run(e, db, a), b)
  {
    if b == [] {
      assert a + b == a;
    } else {
      RunConcat(e, db, a, b[..|b| - 1]);
      assert (a + b)[..|a + b| - 1] == a + b[..|b| - 1];
    }
  }

  /** On service_allocations the whole heal is the move of the node column. */
  lemma HealMovesNode(e: Engine, db: Tables)
    requires e.supported && "service_allocations" in db
    ensures "service_allocations" in Heal(e, db)
    ensures Heal(e, db)["service_allocations"] == MoveNode(e, db["service_allocations"])
  {
    hide Apply, ADDITIVE_STEPS;
    var (before, rest) := (ADDITIVE_STEPS, LEGACY_STEPS[1..]);
    assert Plan() == before + ([MoveAllocationNode] + rest);
    hide Plan;
    OthersLeaveAllocations();
    RunConcat(e, db, before, [MoveAllocationNode] + rest);
    Untouched(e, db, before, "service_allocations");
    var mid := Run(e, db, before);
    RunConcat(e, mid, [MoveAllocationNode], rest);
    SingleStep(e, mid, MoveAllocationNode);
    Untouched(e, Run(e, mid, [MoveAllocationNode]), rest, "service_allocations");
    MoveStep(e, mid);
  }

  lemma OthersLeaveAllocations()
    ensures forall i :: 0 <= i < |ADDITIVE_STEPS| ==> !Touches(ADDITIVE_STEPS[i], "service_allocations")
    ensures forall i :: 0 <= i < |LEGACY_STEPS[1..]| ==> !Touches(LEGACY_STEPS[1..][i], "service_allocations")
  {
    AdditiveStepsHarmless();
    hide ADDITIVE_STEPS;
  }

  lemma MoveStep(e: Engine, db: Tables)
    requires "service_allocations" in db
    ensures "service_allocations" in Apply(e, db, MoveAllocationNode)
    ensures Apply(e, db, MoveAllocationNode)["service_allocations"] == MoveNode(e, db["service_allocations"])
  {
  }

  lemma SingleStep(e: Engine, db: Tables, s: Step)
    ensures Run(e, db, [s]) == Apply(e, db, s)
  {
    assert [s][..0] == [];
  }

  /**
   * After the heal no allocation points at the id its legacy column held: a renamed column is NULL in every
   * row, and a column that was there already keeps its own values.
   */
  lemma NoLegacyNodeIds(e: Engine, db: Tables)
    requires e.supported && "service_allocations" in db
    ensures "service_allocations" in Heal(e, db)
    ensures var (t, u) := (db["service_allocations"], Heal(e, db)["service_allocations"]);
      && |u.rows| == |t.rows|
      && ("chr_node_id" in t.columns && "fleet_chr_node_id" !in t.columns ==>
        "chr_node_id" !in u.columns && "fleet_chr_node_id" in u.columns &&
        forall i :: 0 <= i < |u.rows| ==> "chr_node_id" !in u.rows[i] && "fleet_chr_node_id" in u.rows[i] && u.rows[i]["fleet_chr_node_id"] == Null)
      && ("fleet_chr_node_id" in t.columns ==> forall i :: 0 <= i < |u.rows| && "fleet_chr_node_id" in t.rows[i] ==>
        "fleet_chr_node_id" in u.rows[i] && u.rows[i]["fleet_chr_node_id"] == t.rows[i]["fleet_chr_node_id"])
  {
    HealMovesNode(e, db);
  }

  // ---------------------------------------------------------------- the schema the panel asks for

  datatype Addition = Addition(table: string, columns: seq<Column>)

  /** By table, every column the panel's code reads that an old database may lack, and what old rows get in it. */
  const SCHEMA: seq<Addition> := [
    Addition("customers", [
      Column("runtime_url", Text("")), Column("portal_config_json", Text("{}")),
      Column("owner_admins_json", Text("[]")), Column("currency", Text("USD")), Column("country_iso", Text("")),
      Column("dial_code", Text("")), Column("subdomain", Text("")), Column("speed_unlock_mbps", Number(0)),
      Column("vps_ip", Text("")), Column("dns_record_id", Text("")), Column("dns_synced_at", Null),
      Column("cert_status", Text("unknown")), Column("radius_admins_sync_requested_at", Null)]),
    Addition("admins", [
      Column("is_super_admin", Flag(false))]),
    Addition("customer_users", [
      Column("is_super", Flag(false))]),
    Addition("customer_radius_admins", [
      Column("is_primary", Flag(false))]),
    Addition("chr_nodes", [
      Column("device_facts_json", Text("{}"))]),
    Addition("fleet_chr_nodes", [
      Column("roles_json", Text("[]")), Column("routeros_api_user", Text("")),
      Column("routeros_api_password_enc", Text("")), Column("legacy_chr_node_id", Null),
      Column("wg_data_pubkey", Text("")), Column("needs_reimport", Flag(false)),
      Column("control_wg_public_key_snapshot", Text("")), Column("proxy_wg_public_key_snapshot", Text("")),
      Column("conn_config_json", Text("{}"))]),
    Addition("plans", [
      Column("speed_unlock_mbps", Number(0))]),
    Addition("customer_radius_instances", [
      Column("wg_public_key", Text("")), Column("wg_last_handshake_at", Null),
      Column("last_published_fingerprint", Text("")), Column("last_reported_fingerprint", Text("")),
      Column("last_fingerprint_reported_at", Null), Column("drift_cycles", Number(0)),
      Column("reported_nas_count", Number(-1)), Column("reported_subscribers_count", Number(-1)),
      Column("inventory_reported_at", Null)]),
    Addition("license_payment_requests", [
      Column("access_token", Text("")), Column("applied_at", Null), Column("applied_action", Text("")),
      Column("applied_result_json", Text("{}"))]),
    Addition("customer_vpn_tunnels", [
      Column("license_id", Null), Column("password_hint", Text("")), Column("profile", Text("default")),
      Column("max_connections", Number(1)), Column("speed_profile_id", Null), Column("download_mbps", Null),
      Column("upload_mbps", Null), Column("rate_limit", Text("")), Column("monthly_quota_gb", Null),
      Column("throttle_down_mbps", Null), Column("throttle_up_mbps", Null), Column("quota_period", Text("")),
      Column("quota_bytes_used", Number(0)), Column("quota_sample_bytes", Number(0)),
      Column("is_throttled", Flag(false)), Column("provisioning", Text("auto")),
      Column("source", Text("bridge_request")), Column("chr_provisioned", Flag(false)),
      Column("chr_secret_id", Text("")), Column("chr_host", Text("")), Column("remote_address", Text("")),
      Column("delivery_status", Text("pending")), Column("delivered_at", Null), Column("requested_by_user_id", Null),
      Column("created_by_admin_id", Null), Column("last_error", Text("")), Column("notes", Text("")),
      Column("fleet_chr_node_id", Null)]),
    Addition("provisioning_orders", [
      Column("license_payment_request_id", Null), Column("target_plan_id", Null), Column("requested_at", Null),
      Column("paid_at", Null), Column("provisioning_started_at", Null), Column("ready_at", Null),
      Column("assigned_operator", Text(""))]),
    Addition("whatsapp_message_queue", [
      Column("provider_message_id", Null), Column("next_attempt_at", Null), Column("error_code", Null),
      Column("error_message", Null)]),
    Addition("whatsapp_tenant_accounts", [
      Column("quality_rating", Null), Column("messaging_limit_tier", Null), Column("last_health_check_at", Null),
      Column("last_error_code", Null), Column("last_error_message", Null), Column("onboarding_method", Null),
      Column("scopes", Null), Column("last_sync_at", Null)]),
    Addition("whatsapp_embedded_signup_attempts", [
      Column("license_id", Null), Column("nonce_hash", Null), Column("status", Null), Column("error_code", Null),
      Column("error_message", Null), Column("initiated_by", Null), Column("expires_at", Null),
      Column("completed_at", Null)]),
    Addition("proxy_realm_routes", [
      Column("allowed_fleet_chr_node_ids_json", Text("[]"))]),
    Addition("app_releases", [
      Column("download_url", Text(""))]),
    Addition("customer_vpn_entitlements", [
      Column("traffic_quota_gb", Null)]),
    Addition("customer_wireguard_peers", [
      Column("fleet_chr_node_id", Null)])
  ]

  /** The panel asks for this column, and old rows start with this value in it. */
  ghost predicate Asked(name: string, c: string, d: Value) {
    exists t, j :: 0 <= t < |SCHEMA| && 0 <= j < |SCHEMA[t].columns| && SCHEMA[t].table == name && SCHEMA[t].columns[j] == Column(c, d)
  }

  /** The steps that add the columns of each table, one for most and two for three of them. */
  const FIRST_STEPS: seq<nat> := [0, 1, 2, 3, 4, 5, 7, 8, 9, 11, 12, 13, 14, 15, 18, 19, 20, 22]

  lemma OneBlock(t: nat)
    requires t < |SCHEMA| && t != 0 && t != 5 && t != 9
    ensures |SCHEMA| == |FIRST_STEPS| && FIRST_STEPS[t] < |ADDITIVE_STEPS|
    ensures ADDITIVE_STEPS[FIRST_STEPS[t]] == AddColumns(SCHEMA[t].table, SCHEMA[t].columns)
  {
  }

  lemma CustomerBlocks()
    ensures ADDITIVE_STEPS[0] == AddColumns(SCHEMA[0].table, SCHEMA[0].columns[..6])
    ensures ADDITIVE_STEPS[6] == AddColumns(SCHEMA[0].table, SCHEMA[0].columns[6..])
  {
  }

  lemma NodeBlocks()
    ensures ADDITIVE_STEPS[5] == AddColumns(SCHEMA[5].table, SCHEMA[5].columns[..1])
    ensures ADDITIVE_STEPS[16] == AddColumns(SCHEMA[5].table, SCHEMA[5].columns[1..])
  {
  }

  lemma TunnelBlocks()
    ensures ADDITIVE_STEPS[11] == AddColumns(SCHEMA[9].table, SCHEMA[9].columns[..27])
    ensures ADDITIVE_STEPS[21] == AddColumns(SCHEMA[9].table, SCHEMA[9].columns[27..])
  {
  }

  /** Each step that adds columns adds a stretch of the columns asked for. */
  lemma StepBlock(k: nat) returns (t: nat, lo: nat)
    requires k < |ADDITIVE_STEPS| && ADDITIVE_STEPS[k].AddColumns?
    ensures t < |SCHEMA| && ADDITIVE_STEPS[k].table == SCHEMA[t].table
    ensures lo + |ADDITIVE_STEPS[k].columns| <= |SCHEMA[t].columns|
    ensures ADDITIVE_STEPS[k].columns == SCHEMA[t].columns[lo..lo + |ADDITIVE_STEPS[k].columns|]
  {
    hide ADDITIVE_STEPS, SCHEMA;
    CustomerBlocks();
    NodeBlocks();
    TunnelBlocks();
    PlanShape();
    t := if k == 6 then 0 else if k == 16 then 5 else if k == 11 || k == 21 then 9
      else if k <= 5 then k else if k <= 9 then k - 1 else if k <= 15 then k - 2 else if k <= 20 then k - 4 else 17;
    lo := if k == 6 then 6 else if k == 16 then 1 else if k == 21 then 27 else 0;
    if t != 0 && t != 5 && t != 9 {
      OneBlock(t);
    }
  }

  lemma PlanShape()
    ensures |ADDITIVE_STEPS| == 23 && |SCHEMA| == 18
    ensures ADDITIVE_STEPS[10] == RaiseFingerprintFloor && ADDITIVE_STEPS[17] == FixApiPort
    ensures |SCHEMA[0].columns| == 13 && |SCHEMA[5].columns| == 9 && |SCHEMA[9].columns| == 28
  {
  }

  lemma StepAsked(k: nat, c: string, d: Value)
    requires k < |Plan()| && Plan()[k].AddColumns? && Column(c, d) in Plan()[k].columns
    ensures Asked(Plan()[k].table, c, d)
  {
    var n := |ADDITIVE_STEPS|;
    assert k < n && Plan()[k] == ADDITIVE_STEPS[k];
    hide ADDITIVE_STEPS, Plan, SCHEMA;
    var (s, i) := (ADDITIVE_STEPS[k], 0);
    var t, lo := StepBlock(k);
    i :| 0 <= i < |s.columns| && s.columns[i] == Column(c, d);
    assert SCHEMA[t].columns[lo + i] == s.columns[i];
  }

  lemma AskedStep(t: nat, j: nat) returns (k: nat)
    requires t < |SCHEMA| && j < |SCHEMA[t].columns|
    ensures k < |Plan()| && Plan()[k].AddColumns? && Plan()[k].table == SCHEMA[t].table && SCHEMA[t].columns[j] in Plan()[k].columns
  {
    CustomerBlocks();
    NodeBlocks();
    TunnelBlocks();
    PlanShape();
    if t != 0 && t != 5 && t != 9 {
      OneBlock(t);
    }
    assert forall i :: 0 <= i < |ADDITIVE_STEPS| ==> Plan()[i] == ADDITIVE_STEPS[i];
    assert |Plan()| >= |ADDITIVE_STEPS|;
    k := if t == 0 then (if j < 6 then 0 else 6) else if t == 5 then (if j < 1 then 5 else 16)
      else if t == 9 then (if j < 27 then 11 else 21) else FIRST_STEPS[t];
    hide ADDITIVE_STEPS, SCHEMA, Plan, FIRST_STEPS;
    var columns := SCHEMA[t].columns;
    assert t == 0 ==> columns[j] == if j < 6 then columns[..6][j] else columns[6..][j - 6];
    assert t == 5 ==> columns[j] == if j < 1 then columns[..1][j] else columns[1..][j - 1];
    assert t == 9 ==> columns[j] == if j < 27 then columns[..27][j] else columns[27..][j - 27];
  }

  /** After the heal a table that is there has every column the panel asks for. */
  lemma AskedColumnsThere(e: Engine, db: Tables, name: string, c: string, d: Value)
    requires e.supported && name in Heal(e, db) && Asked(name, c, d)
    ensures c in Heal(e, db)[name].columns
  {
    hide Plan, SCHEMA, Heal;
    var t, j :| 0 <= t < |SCHEMA| && 0 <= j < |SCHEMA[t].columns| && SCHEMA[t].table == name && SCHEMA[t].columns[j] == Column(c, d);
    var k := AskedStep(t, j);
    HealLeavesNoWork(e, db, k);
    assert c in Names(Plan()[k].columns);
  }

  /** The node column that the legacy one of service_allocations is renamed to. */
  predicate Renamed(name: string, c: string) {
    name == "service_allocations" && c == "fleet_chr_node_id"
  }

  /**
   * The columns of every table after the heal: all it had but a legacy one, and all the panel asks for. A new
   * one is asked for and holds in every row the value it is to start with, corrected like any other cell.
   */
  lemma HealedColumns(e: Engine, db: Tables, name: string, c: string)
    requires Rectangular(db) && e.supported && name in Heal(e, db)
    ensures name in db
    ensures c in db[name].columns && !Removed(name, c) ==> c in Heal(e, db)[name].columns
    ensures forall d :: Asked(name, c, d) ==> c in Heal(e, db)[name].columns
    ensures c in Heal(e, db)[name].columns && c !in db[name].columns && !Renamed(name, c) ==>
      exists d :: Asked(name, c, d) && forall i :: 0 <= i < |Heal(e, db)[name].rows| ==>
        var r := Heal(e, db)[name].rows[i]; c in r && r[c] == Corrected(Fleet(db), name, c, Host(r), d)
  {
    HealKeepsData(e, db);
    HealFillsDefaults(e, db);
    var after := Heal(e, db);
    hide Plan, Heal, Corrected, SCHEMA, Removed;
    assert TableKept(true, Fleet(db), name, db[name], after[name]);
    forall d | Asked(name, c, d) ensures c in after[name].columns {
      AskedColumnsThere(e, db, name, c, d);
    }
    if c in after[name].columns && c !in db[name].columns && !Renamed(name, c) {
      var d :| Starts(Plan(), name, c, d) && Filled(true, Fleet(db), after[name], name, c, d);
      var k :| 0 <= k < |Plan()| && Plan()[k].AddColumns? && Plan()[k].table == name && Column(c, d) in Plan()[k].columns;
      StepAsked(k, c, d);
    }
  }

  lemma LegacyPlanned(s: Step) returns (i: nat)
    requires s in {MoveAllocationNode, DropAllowList, DropLegacy("chr_node_metrics"), DropLegacy("chr_nodes")}
    ensures i < |Plan()| && Plan()[i] == s
  {
    var n := |ADDITIVE_STEPS|;
    i := if s == MoveAllocationNode then n else if s == DropAllowList then n + 1 else if s == DropLegacy("chr_node_metrics") then n + 2 else n + 3;
    hide ADDITIVE_STEPS;
    assert Plan()[i] == LEGACY_STEPS[i - n];
  }

  /** What the heal takes away, as far as the engine can: the two legacy tables and the old allow-list column. */
  lemma LegacyGone(e: Engine, db: Tables)
    requires e.supported
    ensures e.dropsTables ==> "chr_node_metrics" !in Heal(e, db) && "chr_nodes" !in Heal(e, db)
    ensures e.dropsColumns && "proxy_realm_routes" in Heal(e, db) ==>
      "allowed_chr_node_ids_json" !in Heal(e, db)["proxy_realm_routes"].columns
    ensures e.dropsColumns && "service_allocations" in Heal(e, db) ==> "chr_node_id" !in Heal(e, db)["service_allocations"].columns
    ensures "service_allocations" in Heal(e, db) && "chr_node_id" in Heal(e, db)["service_allocations"].columns ==>
      "fleet_chr_node_id" in Heal(e, db)["service_allocations"].columns
  {
    hide Plan, Heal;
    var i := LegacyPlanned(MoveAllocationNode);
    HealLeavesNoWork(e, db, i);
    i := LegacyPlanned(DropAllowList);
    HealLeavesNoWork(e, db, i);
    i := LegacyPlanned(DropLegacy("chr_node_metrics"));
    HealLeavesNoWork(e, db, i);
    i := LegacyPlanned(DropLegacy("chr_nodes"));
    HealLeavesNoWork(e, db, i);
  }

  lemma {:induction false} TablesStay(e: Engine, db: Tables, steps: seq<Step>)
    requires !e.dropsTables
    ensures Run(e, db, steps).Keys == db.Keys
  {
    if steps != [] {
      TablesStay(e, db, steps[..|steps| - 1]);
      hide WithColumns, MapRows, MoveNode, DropOldAllowList;
    }
  }

  /** The tables after the heal: exactly those before it, less the two legacy ones where the engine drops tables. */
  lemma HealedTables(e: Engine, db: Tables)
    requires Rectangular(db) && e.supported
    ensures Heal(e, db).Keys == if e.dropsTables then db.Keys - {"chr_node_metrics", "chr_nodes"} else db.Keys
  {
    HealKeepsData(e, db);
    LegacyGone(e, db);
    if !e.dropsTables {
      TablesStay(e, db, Plan());
    }
    hide Plan;
    assert Heal(e, db) == Run(e, db, Plan());
    hide Heal, TableKept, Run;
  }

  /** Healed cells, in the panel's terms: no license below three fingerprints, no node on the old API port. */
  lemma FloorAndPort(e: Engine, db: Tables, i: nat)
    requires e.supported
    ensures "licenses" in Heal(e, db) && i < |Heal(e, db)["licenses"].rows| ==>
      var r := Heal(e, db)["licenses"].rows[i];
      "max_fingerprints" in r && r["max_fingerprints"].Number? ==> r["max_fingerprints"].n >= 3
    ensures "fleet_chr_nodes" in Heal(e, db) && i < |Heal(e, db)["fleet_chr_nodes"].rows| ==>
      var r := Heal(e, db)["fleet_chr_nodes"].rows[i];
      "routeros_api_port" in r ==> r["routeros_api_port"] != Number(8729)
  {
    hide Plan, Heal;
    var k := CorrectionsPlanned(RaiseFingerprintFloor);
    HealLeavesNoWork(e, db, k);
    k := CorrectionsPlanned(FixApiPort);
    HealLeavesNoWork(e, db, k);
    var after := Heal(e, db);
    if "licenses" in after && i < |after["licenses"].rows| {
      assert RaiseFloor(after["licenses"].rows[i]) == after["licenses"].rows[i];
    }
    if "fleet_chr_nodes" in after && i < |after["fleet_chr_nodes"].rows| {
      assert FixPort(after["fleet_chr_nodes"].rows[i]) == after["fleet_chr_nodes"].rows[i];
    }
  }
}
