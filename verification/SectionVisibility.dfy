/** Hiding panel sections and blocking their endpoints (app/admin/section_visibility.py). */
module SectionVisibility {
  import opened Options
  import opened Sorting

  // ---------------------------------------------------------------- tables

  const DEFAULT_SECTIONS := {
    "customers", "customers.list", "customers.add", "licenses", "licenses.list", "licenses.create", "licenses.plans",
    "vpn", "vpn.tunnels", "infra", "infra.chr", "infra.proxy", "infra.macros", "logs", "logs.audit", "logs.health",
    "settings", "settings.general", "settings.admins", "settings.whatsapp"}

  const ALWAYS_VISIBLE_ENDPOINTS := {
    "static", "auth.login", "auth.login_post", "auth.logout", "admin.dashboard", "admin.sections_settings",
    "admin.settings_page", "admin.settings_section_save", "admin.settings_admins", "admin.settings_admins_post"}

  const ALWAYS_VISIBLE_PREFIXES := ["api.", "proxy_api.", "public."]

  datatype Gate = Gate(prefix: string, section: string)

  const ENDPOINT_GATES := [
    Gate("admin.customers_list", "customers.list"), Gate("admin.customer_new", "customers.add"),
    Gate("admin.customer_create", "customers.add"), Gate("admin.customer_", "customers"),
    Gate("admin.licenses_list", "licenses.list"), Gate("admin.license_new", "licenses.create"),
    Gate("admin.license_create", "licenses.create"), Gate("admin.plans_list", "licenses.plans"),
    Gate("admin.plan_", "licenses.plans"), Gate("admin.subscription_packages", "licenses.plans"),
    Gate("admin.discount_tiers", "licenses.plans"), Gate("admin.discount_", "licenses.plans"),
    Gate("admin.license_", "licenses"), Gate("admin.vpn_", "vpn.tunnels"),
    Gate("admin.customer_vpn_", "vpn.tunnels"), Gate("admin_chr.", "infra.chr"),
    Gate("admin_infra.chr", "infra.chr"), Gate("admin_infra.proxy", "infra.proxy"), Gate("admin_infra.", "infra"),
    Gate("admin.audit_logs", "logs.audit"), Gate("admin.checks_list", "logs.health"),
    Gate("admin.renewals_list", "logs"), Gate("admin.settings_whatsapp", "settings.whatsapp"),
    Gate("admin.whatsapp_", "settings.whatsapp")]

  // ---------------------------------------------------------------- from endpoint to section

  predicate AlwaysVisible(endpoint: string) {
    endpoint == "" || endpoint in ALWAYS_VISIBLE_ENDPOINTS ||
    exists i :: 0 <= i < |ALWAYS_VISIBLE_PREFIXES| && ALWAYS_VISIBLE_PREFIXES[i] <= endpoint
  }

  predicate Longer(a: Gate, b: Gate) {
    |a.prefix| > |b.prefix|
  }

  function FirstMatch(gates: seq<Gate>, endpoint: string): Option<string> {
    if gates == [] then None
    else if gates[0].prefix <= endpoint then Some(gates[0].section)
    else FirstMatch(gates[1..], endpoint)
  }

  function EndpointToSection(gates: seq<Gate>, endpoint: string): Option<string> {
    if AlwaysVisible(endpoint) then None else FirstMatch(Sort(Longer, gates), endpoint)
  }

  predicate DistinctPrefixes(gates: seq<Gate>) {
    forall g, h :: g in gates && h in gates && g.prefix == h.prefix ==> g == h
  }

  predicate LongestMatch(gates: seq<Gate>, endpoint: string, g: Gate) {
    g in gates && g.prefix <= endpoint && forall h :: h in gates && h.prefix <= endpoint ==> |h.prefix| <= |g.prefix|
  }

  ghost predicate Descending(gates: seq<Gate>) {
    forall i, j :: 0 <= i < j < |gates| ==> |gates[i].prefix| >= |gates[j].prefix|
  }

  lemma {:induction false} InsertDescending(g: Gate, gates: seq<Gate>)
    requires Descending(gates)
    ensures Descending(Insert(Longer, g, gates))
  {
    if gates != [] && Longer(gates[0], g) {
      InsertDescending(g, gates[1..]);
      var r := Insert(Longer, g, gates[1..]);
      forall j | 0 <= j < |r| ensures |r[j].prefix| <= |gates[0].prefix| {
        assert r[j] in r;
      }
    }
  }

  lemma {:induction false} SortDescending(gates: seq<Gate>)
    ensures Descending(Sort(Longer, gates))
  {
    if gates != [] {
      SortDescending(gates[1..]);
      InsertDescending(gates[0], Sort(Longer, gates[1..]));
    }
  }

  lemma {:induction false} FirstMatchExact(gates: seq<Gate>, endpoint: string)
    requires Descending(gates)
    ensures var s := FirstMatch(gates, endpoint);
      if s.None? then forall g :: g in gates ==> !(g.prefix <= endpoint)
      else exists g :: LongestMatch(gates, endpoint, g) && s == Some(g.section)
  {
    if gates != [] {
      assert gates == [gates[0]] + gates[1..];
      if gates[0].prefix <= endpoint {
        assert LongestMatch(gates, endpoint, gates[0]);
      } else {
        FirstMatchExact(gates[1..], endpoint);
        if g :| LongestMatch(gates[1..], endpoint, g) && FirstMatch(gates[1..], endpoint) == Some(g.section) {
          assert LongestMatch(gates, endpoint, g);
        }
      }
    }
  }

  /** The section is the one of the longest matching prefix, and there is none exactly when nothing matches. */
  lemma SectionIsLongestMatch(gates: seq<Gate>, endpoint: string)
    requires !AlwaysVisible(endpoint)
    ensures var s := EndpointToSection(gates, endpoint);
      if s.None? then forall g :: g in gates ==> !(g.prefix <= endpoint)
      else exists g :: LongestMatch(gates, endpoint, g) && s == Some(g.section)
  {
    SortDescending(gates);
    FirstMatchExact(Sort(Longer, gates), endpoint);
    var s := EndpointToSection(gates, endpoint);
    if g :| LongestMatch(Sort(Longer, gates), endpoint, g) && s == Some(g.section) {
      assert LongestMatch(gates, endpoint, g);
    }
  }

  /** The order the table is written in never matters. */
  lemma TableOrderIrrelevant(gates: seq<Gate>, other: seq<Gate>, endpoint: string)
    requires DistinctPrefixes(gates) && forall g :: g in gates <==> g in other
    ensures EndpointToSection(gates, endpoint) == EndpointToSection(other, endpoint)
  {
    if !AlwaysVisible(endpoint) {
      hide EndpointToSection, AlwaysVisible, LongestMatch;
      SectionIsLongestMatch(gates, endpoint);
      SectionIsLongestMatch(other, endpoint);
      if EndpointToSection(gates, endpoint).Some? && EndpointToSection(other, endpoint).Some? {
        var g :| LongestMatch(gates, endpoint, g) && EndpointToSection(gates, endpoint) == Some(g.section);
        var h :| LongestMatch(other, endpoint, h) && EndpointToSection(other, endpoint) == Some(h.section);
        LongestMatchUnique(gates, other, endpoint, g, h);
      } else {
        MatchesAlike(gates, other, endpoint);
      }
    }
  }

  /** No two gates of the panel's own table share a prefix. */
  lemma GatesDistinct(i: nat, j: nat)
    requires i < |ENDPOINT_GATES| && j < |ENDPOINT_GATES| && ENDPOINT_GATES[i].prefix == ENDPOINT_GATES[j].prefix
    ensures i == j
  {
  }

  lemma GatesDistinctPrefixes()
    ensures DistinctPrefixes(ENDPOINT_GATES)
  {
    hide ENDPOINT_GATES;
    forall g, h | g in ENDPOINT_GATES && h in ENDPOINT_GATES && g.prefix == h.prefix ensures g == h {
      var i :| 0 <= i < |ENDPOINT_GATES| && ENDPOINT_GATES[i] == g;
      var j :| 0 <= j < |ENDPOINT_GATES| && ENDPOINT_GATES[j] == h;
      GatesDistinct(i, j);
    }
  }

  /** So the panel's table could be written in any order. */
  lemma PanelTableOrderIrrelevant(other: seq<Gate>, endpoint: string)
    requires forall g :: g in ENDPOINT_GATES <==> g in other
    ensures EndpointToSection(ENDPOINT_GATES, endpoint) == EndpointToSection(other, endpoint)
  {
    hide ENDPOINT_GATES, EndpointToSection;
    GatesDistinctPrefixes();
    TableOrderIrrelevant(ENDPOINT_GATES, other, endpoint);
  }

  lemma LongestMatchUnique(gates: seq<Gate>, other: seq<Gate>, endpoint: string, g: Gate, h: Gate)
    requires DistinctPrefixes(gates) && forall x :: x in gates <==> x in other
    requires LongestMatch(gates, endpoint, g) && LongestMatch(other, endpoint, h)
    ensures g == h
  {
    assert h in gates && g in other;
    assert |g.prefix| == |h.prefix|;
    assert g.prefix == endpoint[..|g.prefix|] == h.prefix;
  }

  /** One of the two tables has a match exactly when the other has. */
  lemma MatchesAlike(gates: seq<Gate>, other: seq<Gate>, endpoint: string)
    requires forall g :: g in gates <==> g in other
    ensures (exists g :: LongestMatch(gates, endpoint, g)) ==> !(forall h :: h in other ==> !(h.prefix <= endpoint))
    ensures (exists h :: LongestMatch(other, endpoint, h)) ==> !(forall g :: g in gates ==> !(g.prefix <= endpoint))
  {
    if g :| LongestMatch(gates, endpoint, g) {
      assert g in other && g.prefix <= endpoint;
    }
    if h :| LongestMatch(other, endpoint, h) {
      assert h in gates && h.prefix <= endpoint;
    }
  }

  // ---------------------------------------------------------------- dotted keys

  /** `s.split(".")`. */
  function Split(s: string): (parts: seq<string>)
    ensures |parts| >= 1
  {
    if s == "" then [""]
    else
      var rest := Split(s[1..]);
      if s[0] == '.' then [""] + rest else [[s[0]] + rest[0]] + rest[1..]
  }

  function Join(parts: seq<string>): string {
    if parts == [] then "" else if |parts| == 1 then parts[0] else parts[0] + "." + Join(parts[1..])
  }

  /** `p` is `s` or one of its ancestors. */
  predicate Covers(p: string, s: string) {
    p == s || p + "." <= s
  }

  lemma {:induction false} JoinSplit(s: string)
    ensures Join(Split(s)) == s
  {
    if s != "" {
      JoinSplit(s[1..]);
      var rest := Split(s[1..]);
      assert s == [s[0]] + s[1..];
      if s[0] != '.' {
        assert |rest| > 1 ==> Join(rest) == rest[0] + "." + Join(rest[1..]);
      }
    }
  }

  lemma {:induction false} JoinPrefixCovers(parts: seq<string>, i: nat)
    requires 1 <= i <= |parts|
    ensures Covers(Join(parts[..i]), Join(parts))
  {
    if i == |parts| {
      assert parts[..i] == parts;
    } else if i == 1 {
      assert Join(parts) == parts[0] + "." + Join(parts[1..]);
    } else {
      JoinPrefixCovers(parts[1..], i - 1);
      assert parts[..i][1..] == parts[1..][..i - 1];
    }
  }

  /** Every ancestor is the join of some first parts. */
  lemma {:induction false} CoverIsJoin(p: string, s: string) returns (i: nat)
    requires Covers(p, s)
    ensures 1 <= i <= |Split(s)| && Join(Split(s)[..i]) == p
  {
    if p == s {
      i := |Split(s)|;
      assert Split(s)[..i] == Split(s);
      JoinSplit(s);
    } else if p == "" {
      i := 1;
      assert s[0] == '.' && Split(s)[..1] == [""];
    } else {
      assert p[0] == s[0] && p[1..] + "." == (p + ".")[1..] <= s[1..];
      var j := CoverIsJoin(p[1..], s[1..]);
      var rest := Split(s[1..]);
      assert p == [p[0]] + p[1..];
      if s[0] == '.' {
        i := j + 1;
        assert Split(s)[..i] == [""] + rest[..j];
        assert ([""] + rest[..j])[1..] == rest[..j];
      } else {
        i := j;
        assert Split(s)[..i] == [[s[0]] + rest[0]] + rest[1..j];
        assert rest[..j][1..] == rest[1..j];
      }
    }
  }

  // ---------------------------------------------------------------- hidden endpoints

  /** The settings rows `sv:<key>`, by key. */
  type Settings = map<string, string>

  function HiddenSections(settings: Settings): set<string> {
    set k | k in settings && settings[k] == "0"
  }

  /** The endpoint's section, or an ancestor of it, is hidden. */
  ghost predicate Hidden(hidden: set<string>, endpoint: string) {
    var section := EndpointToSection(ENDPOINT_GATES, endpoint);
    section.Some? && section.value != "" && AncestorIn(hidden, section.value)
  }

  ghost predicate AncestorIn(hidden: set<string>, section: string) {
    exists p :: p in hidden && Covers(p, section)
  }

  /** The loop over the dotted prefixes of the section decides `Hidden`. */
  method IsEndpointHidden(settings: Settings, endpoint: string) returns (blocked: bool)
    ensures blocked <==> Hidden(HiddenSections(settings), endpoint)
  {
    hide EndpointToSection, Split, Join, Covers, HiddenSections;
    var section := EndpointToSection(ENDPOINT_GATES, endpoint);
    if section.None? || section.value == "" {
      return false;
    }
    var hidden := HiddenSections(settings);
    if hidden == {} {
      return false;
    }
    var parts := Split(section.value);
    JoinSplit(section.value);
    for i := 1 to |parts| + 1
      invariant forall j :: 1 <= j < i ==> Join(parts[..j]) !in hidden
    {
      if Join(parts[..i]) in hidden {
        JoinPrefixCovers(parts, i);
        return true;
      }
    }
    if p :| p in hidden && Covers(p, section.value) {
      var i := CoverIsJoin(p, section.value);
    }
    blocked := false;
  }

  lemma HiddenMonotone(hidden: set<string>, more: set<string>, endpoint: string)
    requires hidden <= more && Hidden(hidden, endpoint)
    ensures Hidden(more, endpoint)
  {
    hide EndpointToSection, Covers;
    var section := EndpointToSection(ENDPOINT_GATES, endpoint).value;
    var p :| p in hidden && Covers(p, section);
  }

  lemma CoversTransitive(p: string, q: string, s: string)
    requires Covers(p, q) && Covers(q, s)
    ensures Covers(p, s)
  {
    if p != q && q != s {
      assert q == s[..|q|];
      assert p + "." == q[..|p| + 1] == s[..|p| + 1];
    }
  }

  /** Hiding a section, or an ancestor of it, hides every endpoint at or below the section. */
  lemma HiddenDownward(hidden: set<string>, key: string, endpoint: string)
    requires AncestorIn(hidden, key) && key != ""
    requires EndpointToSection(ENDPOINT_GATES, endpoint).Some?
    requires Covers(key, EndpointToSection(ENDPOINT_GATES, endpoint).value)
    ensures Hidden(hidden, endpoint)
  {
    hide EndpointToSection;
    var section := EndpointToSection(ENDPOINT_GATES, endpoint).value;
    var p :| p in hidden && Covers(p, key);
    CoversTransitive(p, key, section);
  }

  // ---------------------------------------------------------------- saving

  datatype Choice = Choice(key: string, visible: bool)

  function Saved(settings: Settings, data: seq<Choice>): Settings {
    if data == [] then settings
    else
      var (before, c) := (Saved(settings, data[..|data| - 1]), data[|data| - 1]);
      if c.key in DEFAULT_SECTIONS then before[c.key := if c.visible then "1" else "0"] else before
  }

  class VisibilityStore {
    var settings: Settings

    constructor ()
      ensures settings == map[]
    {
      settings := map[];
    }

    method SaveVisibility(data: seq<Choice>)
      modifies this
      ensures settings == Saved(old(settings), data)
    {
      for i := 0 to |data|
        invariant settings == Saved(old(settings), data[..i])
      {
        assert data[..i + 1][..i] == data[..i];
        if data[i].key in DEFAULT_SECTIONS {
          settings := settings[data[i].key := if data[i].visible then "1" else "0"];
        }
      }
      assert data[..|data|] == data;
    }
  }

  /** The choice made last for a key. */
  function LastChoice(data: seq<Choice>, key: string): (v: Option<bool>)
    ensures v.None? <==> forall i :: 0 <= i < |data| ==> data[i].key != key
  {
    if data == [] then None
    else if data[|data| - 1].key == key then Some(data[|data| - 1].visible)
    else LastChoice(data[..|data| - 1], key)
  }

  /** After any saves a known key has the last value chosen for it, and no other row has changed. */
  lemma {:induction false} LastChoiceWins(settings: Settings, data: seq<Choice>, key: string)
    ensures var (after, last) := (Saved(settings, data), LastChoice(data, key));
      if key !in DEFAULT_SECTIONS || last.None?
      then (key in after <==> key in settings) && (key in after ==> after[key] == settings[key])
      else key in after && after[key] == if last.value then "1" else "0"
  {
    if data != [] {
      hide DEFAULT_SECTIONS;
      LastChoiceWins(settings, data[..|data| - 1], key);
    }
  }

  /** Whatever is saved, the login, the dashboard and the visibility editor itself stay reachable. */
  lemma AlwaysVisibleNeverHidden(settings: Settings, data: seq<Choice>, endpoint: string)
    requires AlwaysVisible(endpoint)
    ensures !Hidden(HiddenSections(Saved(settings, data)), endpoint)
  {
  }

  /** These endpoints, and the ones of the interfaces for devices, proxies and the public, are beyond hiding. */
  lemma AlwaysVisibleIff(endpoint: string)
    ensures AlwaysVisible(endpoint) <==>
      || endpoint in {
           "", "static", "auth.login", "auth.login_post", "auth.logout", "admin.dashboard", "admin.sections_settings",
           "admin.settings_page", "admin.settings_section_save", "admin.settings_admins", "admin.settings_admins_post"}
      || "api." <= endpoint || "proxy_api." <= endpoint || "public." <= endpoint
  {
    assert ALWAYS_VISIBLE_PREFIXES[0] == "api." && ALWAYS_VISIBLE_PREFIXES[1] == "proxy_api." && ALWAYS_VISIBLE_PREFIXES[2] == "public.";
  }

  /** The section is hidden by what was last chosen for it or, if nothing was, by what was stored before. */
  predicate ChosenHidden(settings: Settings, data: seq<Choice>, key: string) {
    var last := LastChoice(data, key);
    if key in DEFAULT_SECTIONS && last.Some? then !last.value else key in settings && settings[key] == "0"
  }

  lemma HiddenByChoice(settings: Settings, data: seq<Choice>, key: string)
    ensures key in HiddenSections(Saved(settings, data)) <==> ChosenHidden(settings, data, key)
  {
    LastChoiceWins(settings, data, key);
    hide DEFAULT_SECTIONS, Saved, LastChoice;
  }

  /** An endpoint that can be hidden is hidden exactly through the section of its longest gate, or an ancestor of it. */
  lemma HiddenThroughGate(hidden: set<string>, endpoint: string)
    requires !AlwaysVisible(endpoint)
    ensures Hidden(hidden, endpoint) <==>
      exists g, p :: LongestMatch(ENDPOINT_GATES, endpoint, g) && Covers(p, g.section) && p in hidden
  {
    hide *;
    PanelSection(endpoint);
    HiddenWhen(hidden, endpoint);
    var s := EndpointToSection(ENDPOINT_GATES, endpoint);
    if g, p :| LongestMatch(ENDPOINT_GATES, endpoint, g) && Covers(p, g.section) && p in hidden {
      assert s.Some? && s.value == g.section;
    }
  }

  lemma HiddenWhen(hidden: set<string>, endpoint: string)
    ensures var s := EndpointToSection(ENDPOINT_GATES, endpoint);
      Hidden(hidden, endpoint) <==> s.Some? && s.value != "" && exists p :: p in hidden && Covers(p, s.value)
  {
    hide EndpointToSection, ENDPOINT_GATES, Covers;
  }

  /**
   * After any saves an endpoint is blocked if and only if it is not one of the always-visible ones, some gate
   * matches it, and the section of the longest such gate, or an ancestor of that section, was last chosen hidden.
   */
  lemma BlockedIff(settings: Settings, data: seq<Choice>, endpoint: string)
    ensures Hidden(HiddenSections(Saved(settings, data)), endpoint) <==>
      && !AlwaysVisible(endpoint)
      && exists g, p :: LongestMatch(ENDPOINT_GATES, endpoint, g) && Covers(p, g.section) && ChosenHidden(settings, data, p)
  {
    hide *;
    var hidden := HiddenSections(Saved(settings, data));
    forall key ensures key in hidden <==> ChosenHidden(settings, data, key) {
      HiddenByChoice(settings, data, key);
    }
    if AlwaysVisible(endpoint) {
      AlwaysVisibleNeverHidden(settings, data, endpoint);
    } else {
      HiddenThroughGate(hidden, endpoint);
    }
  }

  lemma SectionsNamed()
    ensures forall i :: 0 <= i < |ENDPOINT_GATES| ==> ENDPOINT_GATES[i].section != ""
  {
  }

  /** The section of an endpoint is that of every longest match in the panel's table, of which there is at most one. */
  lemma PanelSection(endpoint: string)
    requires !AlwaysVisible(endpoint)
    ensures var s := EndpointToSection(ENDPOINT_GATES, endpoint);
      && (s.Some? ==> exists g :: LongestMatch(ENDPOINT_GATES, endpoint, g) && s == Some(g.section))
      && forall g :: LongestMatch(ENDPOINT_GATES, endpoint, g) ==> s == Some(g.section) && g.section != ""
  {
    hide *;
    SectionIsLongestMatch(ENDPOINT_GATES, endpoint);
    GatesDistinctPrefixes();
    var s := EndpointToSection(ENDPOINT_GATES, endpoint);
    forall g | LongestMatch(ENDPOINT_GATES, endpoint, g) ensures s == Some(g.section) && g.section != "" {
      MatchNamed(endpoint, g);
      if s.Some? {
        var h :| LongestMatch(ENDPOINT_GATES, endpoint, h) && s == Some(h.section);
        LongestMatchUnique(ENDPOINT_GATES, ENDPOINT_GATES, endpoint, g, h);
      }
    }
  }

  lemma MatchNamed(endpoint: string, g: Gate)
    requires LongestMatch(ENDPOINT_GATES, endpoint, g)
    ensures g in ENDPOINT_GATES && g.prefix <= endpoint && g.section != ""
  {
    SectionsNamed();
    hide ENDPOINT_GATES;
  }
}
