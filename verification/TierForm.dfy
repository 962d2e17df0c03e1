/** The bulk form of a customer's service tiers (`customer_service_tiers_save`). */
module TierForm {
  import opened AsciiText
  import opened Options

  // ---------------------------------------------------------------- entitlements

  datatype Tier = Paid | FreeUnlimited | FreeLimited

  /** `clean_service_tier`: an unknown tier counts as paid. */
  function CleanTier(raw: string): Tier {
    var t := Lower(Strip(raw));
    if t == "free_unlimited" then FreeUnlimited else if t == "free_limited" then FreeLimited else Paid
  }

  /** The tier as the config stores it: paid is stored as nothing. */
  function StoredTier(t: Tier): Option<string> {
    match t
    case Paid => None
    case FreeUnlimited => Some("free_unlimited")
    case FreeLimited => Some("free_limited")
  }

  predicate IsFree(t: Tier) {
    t != Paid
  }

  /** One customer's entitlement to one service; `tier` and `hidden` live in its config. */
  datatype Entitlement = Entitlement(
    tier: Option<string>, hidden: bool, enabled: bool, status: string, limits: map<string, int>)

  function TierOf(e: Entitlement): Tier {
    if e.tier.None? then Paid else CleanTier(e.tier.value)
  }

  datatype CatalogItem = CatalogItem(key: string, defaultEnabled: bool, limitFields: seq<string>)

  type Rows = map<string, Entitlement>

  predicate LowerOrDigit(c: char) {
    'a' <= c <= 'z' || '0' <= c <= '9'
  }

  /** What `clean_service_key` lets through unchanged: 2 to 80 lower-case letters, digits, "_" and "-". */
  predicate ServiceKey(key: string) {
    && 2 <= |key| <= 80 && LowerOrDigit(key[0])
    && forall i :: 0 <= i < |key| ==> LowerOrDigit(key[i]) || key[i] == '_' || key[i] == '-'
  }

  function GetOrCreate(rows: Rows, item: CatalogItem): Entitlement {
    if item.key in rows then rows[item.key]
    else Entitlement(None, false, item.defaultEnabled, if item.defaultEnabled then "active" else "disabled", map[])
  }

  // ---------------------------------------------------------------- the form

  /** A posted limit after `strip` and `int`. */
  datatype Input = Blank | NotANumber | Number(n: int)

  datatype ServiceForm = ServiceForm(tier: string, limits: map<string, Input>, hidden: bool, suspended: bool)

  /** The posted services; one whose tier field is missing is not in the map. */
  type Form = map<string, ServiceForm>

  function InputOf(f: ServiceForm, field: string): Input {
    if field in f.limits then f.limits[field] else Blank
  }

  predicate Accepted(i: Input) {
    i.Blank? || (i.Number? && i.n >= 0)
  }

  function WithLimits(limits: map<string, int>, fields: seq<string>, f: ServiceForm): Option<map<string, int>> {
    if fields == [] then Some(limits)
    else
      var before := WithLimits(limits, fields[..|fields| - 1], f);
      var i := InputOf(f, fields[|fields| - 1]);
      if before.None? || !Accepted(i) then None
      else if i.Blank? then before
      else Some(before.value[fields[|fields| - 1] := i.n])
  }

  // ---------------------------------------------------------------- saving

  /** A saved row with the number of changes it counts for. */
  datatype SavedRow = SavedRow(row: Entitlement, changed: nat)

  function SaveOne(e: Entitlement, fields: seq<string>, f: ServiceForm): Option<SavedRow> {
    var tier := CleanTier(f.tier);
    var limits := if tier == FreeLimited then WithLimits(e.limits, fields, f) else Some(e.limits);
    if limits.None? then None
    else
      var wasSuspended := e.status == "suspended";
      var (status, enabled) :=
        if f.suspended then ("suspended", false)
        else if wasSuspended then ("active", IsFree(tier))
        else if IsFree(tier) then ("active", true)
        else (e.status, e.enabled);
      var changed :=
        (if e.hidden != f.hidden then 1 else 0) +
        (if f.suspended != wasSuspended then 1 else 0) +
        (if TierOf(e) != tier then 1 else 0);
      Some(SavedRow(Entitlement(StoredTier(tier), f.hidden, enabled, status, limits.value), changed))
  }

  /** A catalog item the customer control refuses the key of fails like a bad limit. */
  function SaveItem(rows: Rows, item: CatalogItem, f: ServiceForm): Option<SavedRow> {
    if ServiceKey(item.key) then SaveOne(GetOrCreate(rows, item), item.limitFields, f) else None
  }

  datatype Result = Failed | Saved(rows: Rows, changed: nat)

  function SaveRows(rows: Rows, catalog: seq<CatalogItem>, form: Form): Result {
    if catalog == [] then Saved(rows, 0)
    else
      var before := SaveRows(rows, catalog[..|catalog| - 1], form);
      var item := catalog[|catalog| - 1];
      if before.Failed? || item.key !in form then before
      else
        var saved := SaveItem(before.rows, item, form[item.key]);
        if saved.None? then Failed
        else Saved(before.rows[item.key := saved.value.row], before.changed + saved.value.changed)
  }

  class TierPage {
    var rows: Rows

    constructor (rows: Rows)
      ensures this.rows == rows
    {
      this.rows := rows;
    }

    method ReadLimits(limits: map<string, int>, fields: seq<string>, f: ServiceForm) returns (r: Option<map<string, int>>)
      ensures r == WithLimits(limits, fields, f)
    {
      var updated := limits;
      for i := 0 to |fields|
        invariant WithLimits(limits, fields[..i], f) == Some(updated)
      {
        assert fields[..i + 1][..i] == fields[..i];
        var input := InputOf(f, fields[i]);
        if !Accepted(input) {
          FailureStays(limits, fields, f, i + 1);
          return None;
        }
        if input.Number? {
          updated := updated[fields[i] := input.n];
        }
      }
      assert fields[..|fields|] == fields;
      r := Some(updated);
    }

    /** One posted service, on the row it has or is given. */
    method SaveService(e: Entitlement, fields: seq<string>, f: ServiceForm) returns (r: Option<SavedRow>)
      ensures r == SaveOne(e, fields, f)
    {
      var changed := 0;
      var tier := CleanTier(f.tier);
      var previous := TierOf(e);
      var wasSuspended := e.status == "suspended";
      var row := e.(tier := StoredTier(tier));
      if tier == FreeLimited {
        var limits := ReadLimits(row.limits, fields, f);
        if limits.None? {
          return None;
        }
        row := row.(limits := limits.value);
      }
      if IsFree(tier) {
        row := row.(enabled := true, status := "active");
      }
      if row.hidden != f.hidden {
        row := row.(hidden := f.hidden);
        changed := changed + 1;
      }
      if f.suspended {
        row := row.(status := "suspended", enabled := false);
        if !wasSuspended {
          changed := changed + 1;
        }
      } else if wasSuspended {
        row := row.(status := "active", enabled := IsFree(tier));
        changed := changed + 1;
      }
      if previous != tier {
        changed := changed + 1;
      }
      r := Some(SavedRow(row, changed));
    }

    /** A bad limit or a bad key anywhere rolls the whole session back. */
    method CustomerServiceTiersSave(catalog: seq<CatalogItem>, form: Form) returns (changed: Option<nat>)
      modifies this
      ensures match SaveRows(old(rows), catalog, form)
        case Failed => changed == None && rows == old(rows)
        case Saved(after, count) => changed == Some(count) && rows == after
    {
      var session := rows;
      var count: nat := 0;
      for i := 0 to |catalog|
        invariant SaveRows(rows, catalog[..i], form) == Saved(session, count)
        invariant rows == old(rows)
      {
        assert catalog[..i + 1][..i] == catalog[..i];
        var item := catalog[i];
        if item.key in form {
          var saved := None;
          if ServiceKey(item.key) {
            saved := SaveService(GetOrCreate(session, item), item.limitFields, form[item.key]);
          }
          if saved.None? {
            FailureSpreads(rows, catalog, form, i + 1);
            return None;
          }
          session := session[item.key := saved.value.row];
          count := count + saved.value.changed;
        }
      }
      assert catalog[..|catalog|] == catalog;
      rows := session;
      changed := Some(count);
    }
  }

  lemma {:induction false} FailureStays(limits: map<string, int>, fields: seq<string>, f: ServiceForm, i: nat)
    requires i <= |fields| && WithLimits(limits, fields[..i], f) == None
    ensures WithLimits(limits, fields, f) == None
  {
    if i == |fields| {
      assert fields[..i] == fields;
    } else {
      assert fields[..|fields| - 1][..i] == fields[..i];
      FailureStays(limits, fields[..|fields| - 1], f, i);
    }
  }

  lemma {:induction false} FailureSpreads(rows: Rows, catalog: seq<CatalogItem>, form: Form, i: nat)
    requires i <= |catalog| && SaveRows(rows, catalog[..i], form) == Failed
    ensures SaveRows(rows, catalog, form) == Failed
  {
    if i == |catalog| {
      assert catalog[..i] == catalog;
    } else {
      assert catalog[..|catalog| - 1][..i] == catalog[..i];
      FailureSpreads(rows, catalog[..|catalog| - 1], form, i);
    }
  }

  // ---------------------------------------------------------------- when a form is refused

  lemma {:induction false} LimitsAcceptedIff(limits: map<string, int>, fields: seq<string>, f: ServiceForm)
    ensures WithLimits(limits, fields, f).Some? <==> forall i :: 0 <= i < |fields| ==> Accepted(InputOf(f, fields[i]))
  {
    if fields != [] {
      LimitsAcceptedIff(limits, fields[..|fields| - 1], f);
    }
  }

  /** A posted service with a bad key, or a limited-free one with a limit that is no whole number from zero up. */
  ghost predicate Refused(item: CatalogItem, form: Form) {
    item.key in form && (!ServiceKey(item.key) || BadLimit(item, form[item.key]))
  }

  ghost predicate BadLimit(item: CatalogItem, f: ServiceForm) {
    CleanTier(f.tier) == FreeLimited &&
    exists i :: 0 <= i < |item.limitFields| && item.limitFields[i] in f.limits &&
      (f.limits[item.limitFields[i]].NotANumber? || (f.limits[item.limitFields[i]].Number? && f.limits[item.limitFields[i]].n < 0))
  }

  /** The form is refused exactly when some posted service has a bad key or a bad limit; then no row changes. */
  lemma {:induction false} RefusedIff(rows: Rows, catalog: seq<CatalogItem>, form: Form)
    ensures SaveRows(rows, catalog, form).Failed? <==> exists i :: 0 <= i < |catalog| && Refused(catalog[i], form)
  {
    hide *;
    if catalog == [] {
      EmptyCatalog(rows, form);
    } else {
      var (prefix, item) := (catalog[..|catalog| - 1], catalog[|catalog| - 1]);
      var before := SaveRows(rows, prefix, form);
      SaveStep(rows, catalog, form);
      RefusedIff(rows, prefix, form);
      assert forall i :: 0 <= i < |prefix| ==> prefix[i] == catalog[i];
      if before.Saved? {
        SaveOneRefused(before.rows, item, form);
      }
    }
  }

  lemma NoBadLimit(item: CatalogItem, f: ServiceForm)
    ensures BadLimit(item, f) ==> CleanTier(f.tier) == FreeLimited
  {
    hide CleanTier;
  }

  lemma AcceptedIff(item: CatalogItem, f: ServiceForm)
    ensures CleanTier(f.tier) == FreeLimited ==> (BadLimit(item, f) <==>
      exists i :: 0 <= i < |item.limitFields| && !Accepted(InputOf(f, item.limitFields[i])))
  {
    hide CleanTier;
    if i :| 0 <= i < |item.limitFields| && !Accepted(InputOf(f, item.limitFields[i])) {
      assert item.limitFields[i] in f.limits;
    }
  }

  lemma SaveOneRefused(rows: Rows, item: CatalogItem, form: Form)
    ensures Refused(item, form) <==>
      item.key in form && SaveItem(rows, item, form[item.key]).None?
  {
    if item.key in form {
      LimitsAcceptedIff(GetOrCreate(rows, item).limits, item.limitFields, form[item.key]);
      AcceptedIff(item, form[item.key]);
      hide CleanTier, WithLimits, GetOrCreate, Accepted, ServiceKey, BadLimit;
      assert CleanTier(form[item.key].tier) != FreeLimited ==> !BadLimit(item, form[item.key]) by {
        NoBadLimit(item, form[item.key]);
      }
    }
  }

  // ---------------------------------------------------------------- what a post leaves behind

  predicate DistinctKeys(catalog: seq<CatalogItem>) {
    forall i, j :: 0 <= i < j < |catalog| ==> catalog[i].key != catalog[j].key
  }

  predicate Posts(catalog: seq<CatalogItem>, form: Form, key: string) {
    key in form && exists i :: 0 <= i < |catalog| && catalog[i].key == key
  }

  /** A row that is not posted is as before. */
  lemma {:induction false} OtherRowsKept(rows: Rows, catalog: seq<CatalogItem>, form: Form, key: string)
    requires SaveRows(rows, catalog, form).Saved? && !Posts(catalog, form, key)
    ensures var after := SaveRows(rows, catalog, form).rows;
      (key in after <==> key in rows) && (key in after ==> after[key] == rows[key])
  {
    if catalog != [] {
      hide SaveItem;
      OtherRowsKept(rows, catalog[..|catalog| - 1], form, key);
    }
  }

  /** Each posted service has the row its own part of the form makes of it. */
  lemma {:induction false} RowAfter(rows: Rows, catalog: seq<CatalogItem>, form: Form, i: nat)
    requires DistinctKeys(catalog) && SaveRows(rows, catalog, form).Saved?
    requires i < |catalog| && catalog[i].key in form
    ensures var (after, item) := (SaveRows(rows, catalog, form).rows, catalog[i]);
      var saved := SaveItem(rows, item, form[item.key]);
      saved.Some? && item.key in after && after[item.key] == saved.value.row
  {
    hide *;
    var (prefix, last) := (catalog[..|catalog| - 1], catalog[|catalog| - 1]);
    SaveStep(rows, catalog, form);
    PrefixDistinct(catalog);
    if i == |catalog| - 1 {
      OtherRowsKept(rows, prefix, form, last.key);
      SameFetch(rows, SaveRows(rows, prefix, form).rows, last);
    } else {
      RowAfter(rows, prefix, form, i);
    }
  }

  /** What the last item of the catalog adds to a save of the ones before it. */
  lemma SaveStep(rows: Rows, catalog: seq<CatalogItem>, form: Form)
    requires catalog != []
    ensures var (before, item) := (SaveRows(rows, catalog[..|catalog| - 1], form), catalog[|catalog| - 1]);
      SaveRows(rows, catalog, form) ==
        if before.Failed? || item.key !in form then before
        else
          var saved := SaveItem(before.rows, item, form[item.key]);
          if saved.None? then Failed
          else Saved(before.rows[item.key := saved.value.row], before.changed + saved.value.changed)
  {
    hide SaveItem;
  }

  lemma PrefixDistinct(catalog: seq<CatalogItem>)
    requires DistinctKeys(catalog) && catalog != []
    ensures var (prefix, last) := (catalog[..|catalog| - 1], catalog[|catalog| - 1]);
      && DistinctKeys(prefix) && (forall i :: 0 <= i < |prefix| ==> prefix[i].key != last.key)
      && forall form :: !Posts(prefix, form, last.key)
  {
  }

  lemma SameFetch(rows: Rows, other: Rows, item: CatalogItem)
    requires (item.key in rows <==> item.key in other) && (item.key in rows ==> rows[item.key] == other[item.key])
    ensures GetOrCreate(rows, item) == GetOrCreate(other, item)
    ensures forall f :: SaveItem(rows, item, f) == SaveItem(other, item, f)
  {
    hide SaveOne, ServiceKey;
  }

  /** A suspended service is off whatever its tier; a free one that is not suspended is on; hiding changes neither. */
  lemma PostedServiceState(rows: Rows, catalog: seq<CatalogItem>, form: Form, i: nat)
    requires DistinctKeys(catalog) && i < |catalog| && catalog[i].key in form
    requires SaveRows(rows, catalog, form).Saved?
    ensures catalog[i].key in SaveRows(rows, catalog, form).rows
    ensures var (e, f) := (SaveRows(rows, catalog, form).rows[catalog[i].key], form[catalog[i].key]);
      && (f.suspended ==> e.status == "suspended" && !e.enabled)
      && (!f.suspended && IsFree(CleanTier(f.tier)) ==> e.status == "active" && e.enabled)
      && (!f.suspended ==> e.status != "suspended")
      && TierOf(e) == CleanTier(f.tier) && e.hidden == f.hidden
  {
    RowAfter(rows, catalog, form, i);
    StoredTierReadsBack(CleanTier(form[catalog[i].key].tier));
    hide SaveRows, CleanTier;
  }

  lemma StoredTierReadsBack(t: Tier)
    ensures StoredTier(t).Some? ==> CleanTier(StoredTier(t).value) == t
    ensures StoredTier(t).None? <==> t == Paid
  {
    assert Strip("free_unlimited") == "free_unlimited" && Strip("free_limited") == "free_limited";
    assert Lower("free_unlimited") == "free_unlimited" && Lower("free_limited") == "free_limited";
  }

  lemma {:induction false} LimitsElsewhere(limits: map<string, int>, fields: seq<string>, f: ServiceForm, field: string)
    requires WithLimits(limits, fields, f).Some? && (field !in fields || InputOf(f, field).Blank?)
    ensures var after := WithLimits(limits, fields, f).value;
      (field in after <==> field in limits) && (field in after ==> after[field] == limits[field])
  {
    if fields != [] {
      LimitsElsewhere(limits, fields[..|fields| - 1], f, field);
    }
  }

  /** A limited-free service takes over every number posted for it; other limits, and other tiers, keep theirs. */
  lemma PostedLimits(e: Entitlement, fields: seq<string>, f: ServiceForm, field: string)
    requires SaveOne(e, fields, f).Some?
    ensures var after := SaveOne(e, fields, f).value.row.limits;
      if CleanTier(f.tier) == FreeLimited && field in fields && InputOf(f, field).Number?
      then field in after && after[field] == InputOf(f, field).n >= 0
      else (field in after <==> field in e.limits) && (field in after ==> after[field] == e.limits[field])
  {
    hide CleanTier;
    if CleanTier(f.tier) == FreeLimited {
      LimitsAcceptedIff(e.limits, fields, f);
      if field in fields && InputOf(f, field).Number? {
        LimitsSettled(e.limits, fields, f);
        var i :| 0 <= i < |fields| && fields[i] == field;
      } else {
        LimitsElsewhere(e.limits, fields, f, field);
      }
    }
  }

  /** The form agrees with the row on the tier, on hiding and on suspending; limits do not matter here. */
  predicate Agrees(e: Entitlement, f: ServiceForm) {
    TierOf(e) == CleanTier(f.tier) && e.hidden == f.hidden && (f.suspended <==> e.status == "suspended")
  }

  /** A saved form counts no change exactly when it agrees with every posted row; changed limits never count. */
  lemma {:induction false} NoChangeCountedIff(rows: Rows, catalog: seq<CatalogItem>, form: Form)
    requires DistinctKeys(catalog) && SaveRows(rows, catalog, form).Saved?
    ensures SaveRows(rows, catalog, form).changed == 0 <==>
      forall i :: 0 <= i < |catalog| && catalog[i].key in form ==> Agrees(GetOrCreate(rows, catalog[i]), form[catalog[i].key])
  {
    hide *;
    if catalog == [] {
      EmptyCatalog(rows, form);
    } else {
      var (prefix, item) := (catalog[..|catalog| - 1], catalog[|catalog| - 1]);
      SaveStep(rows, catalog, form);
      PrefixDistinct(catalog);
      NoChangeCountedIff(rows, prefix, form);
      if item.key in form {
        OtherRowsKept(rows, prefix, form, item.key);
        SameFetch(rows, SaveRows(rows, prefix, form).rows, item);
        SaveItemCounts(rows, item, form[item.key]);
      }
      assert forall i :: 0 <= i < |prefix| ==> prefix[i] == catalog[i];
    }
  }

  lemma EmptyCatalog(rows: Rows, form: Form)
    ensures SaveRows(rows, [], form) == Saved(rows, 0)
  {
  }

  lemma SaveItemCounts(rows: Rows, item: CatalogItem, f: ServiceForm)
    requires SaveItem(rows, item, f).Some?
    ensures SaveItem(rows, item, f).value.changed == 0 <==> Agrees(GetOrCreate(rows, item), f)
  {
    hide SaveOne, GetOrCreate, Agrees, ServiceKey;
    SaveOneCounts(GetOrCreate(rows, item), item.limitFields, f);
  }

  lemma SaveOneCounts(e: Entitlement, fields: seq<string>, f: ServiceForm)
    requires SaveOne(e, fields, f).Some?
    ensures SaveOne(e, fields, f).value.changed == 0 <==> Agrees(e, f)
  {
    hide CleanTier, WithLimits;
  }

  // ---------------------------------------------------------------- posting the same form again

  lemma {:induction false} LimitsSettled(limits: map<string, int>, fields: seq<string>, f: ServiceForm)
    requires WithLimits(limits, fields, f).Some?
    ensures forall i :: 0 <= i < |fields| && InputOf(f, fields[i]).Number? ==>
      fields[i] in WithLimits(limits, fields, f).value &&
      WithLimits(limits, fields, f).value[fields[i]] == InputOf(f, fields[i]).n
  {
    if fields != [] {
      LimitsSettled(limits, fields[..|fields| - 1], f);
    }
  }

  lemma {:induction false} LimitsUnchanged(limits: map<string, int>, fields: seq<string>, f: ServiceForm)
    requires forall i :: 0 <= i < |fields| ==> Accepted(InputOf(f, fields[i]))
    requires forall i :: 0 <= i < |fields| && InputOf(f, fields[i]).Number? ==>
      fields[i] in limits && limits[fields[i]] == InputOf(f, fields[i]).n
    ensures WithLimits(limits, fields, f) == Some(limits)
  {
    if fields != [] {
      LimitsUnchanged(limits, fields[..|fields| - 1], f);
      var k := fields[|fields| - 1];
      assert k in limits ==> limits[k := limits[k]] == limits;
    }
  }

  lemma SaveOneSettles(e: Entitlement, fields: seq<string>, f: ServiceForm)
    requires SaveOne(e, fields, f).Some?
    ensures SaveOne(SaveOne(e, fields, f).value.row, fields, f) == Some(SavedRow(SaveOne(e, fields, f).value.row, 0))
  {
    StoredTierReadsBack(CleanTier(f.tier));
    hide CleanTier;
    if CleanTier(f.tier) == FreeLimited {
      LimitsAcceptedIff(e.limits, fields, f);
      LimitsSettled(e.limits, fields, f);
      LimitsUnchanged(WithLimits(e.limits, fields, f).value, fields, f);
    }
  }

  lemma SaveItemSettles(rows: Rows, after: Rows, item: CatalogItem, f: ServiceForm)
    requires SaveItem(rows, item, f).Some? && item.key in after && after[item.key] == SaveItem(rows, item, f).value.row
    ensures SaveItem(after, item, f) == Some(SavedRow(after[item.key], 0))
  {
    hide SaveOne, ServiceKey;
    SaveOneSettles(GetOrCreate(rows, item), item.limitFields, f);
  }

  /** Posting a saved form again changes no row and counts no change. */
  lemma RepostChangesNothing(rows: Rows, catalog: seq<CatalogItem>, form: Form)
    requires DistinctKeys(catalog) && SaveRows(rows, catalog, form).Saved?
    ensures var after := SaveRows(rows, catalog, form).rows;
      SaveRows(after, catalog, form) == Saved(after, 0)
  {
    var after := SaveRows(rows, catalog, form).rows;
    forall i | 0 <= i < |catalog| && catalog[i].key in form
      ensures catalog[i].key in after
      ensures SaveItem(after, catalog[i], form[catalog[i].key]) == Some(SavedRow(after[catalog[i].key], 0))
    {
      RowAfter(rows, catalog, form, i);
      SaveItemSettles(rows, after, catalog[i], form[catalog[i].key]);
    }
    SettledRows(after, catalog, form);
  }

  lemma {:induction false} SettledRows(rows: Rows, catalog: seq<CatalogItem>, form: Form)
    requires forall i :: 0 <= i < |catalog| && catalog[i].key in form ==>
      catalog[i].key in rows &&
      SaveItem(rows, catalog[i], form[catalog[i].key]) == Some(SavedRow(rows[catalog[i].key], 0))
    ensures SaveRows(rows, catalog, form) == Saved(rows, 0)
  {
    if catalog != [] {
      hide SaveItem;
      SettledRows(rows, catalog[..|catalog| - 1], form);
    }
  }

  // ---------------------------------------------------------------- a posted row, written out

  /** The row a post starts from: the stored one, or a new one as the catalog has it. */
  function OldRow(rows: Rows, item: CatalogItem): Entitlement {
    if item.key in rows then rows[item.key]
    else Entitlement(None, false, item.defaultEnabled, if item.defaultEnabled then "active" else "disabled", map[])
  }

  predicate FreeText(tier: string) {
    Lower(Strip(tier)) in {"free_unlimited", "free_limited"}
  }

  lemma CleanTierFree(raw: string)
    ensures IsFree(CleanTier(raw)) <==> FreeText(raw)
    ensures StoredTier(CleanTier(raw)) == if FreeText(raw) then Some(Lower(Strip(raw))) else None
  {
    hide Lower, Strip;
  }

  lemma SavedOneExact(e: Entitlement, fields: seq<string>, f: ServiceForm)
    requires SaveOne(e, fields, f).Some?
    ensures var a := SaveOne(e, fields, f).value.row;
      && (a.enabled <==> !f.suspended && (FreeText(f.tier) || (e.status != "suspended" && e.enabled)))
      && a.status == (if f.suspended then "suspended" else if FreeText(f.tier) || e.status == "suspended" then "active" else e.status)
      && a.hidden == f.hidden
      && a.tier == if FreeText(f.tier) then Some(Lower(Strip(f.tier))) else None
  {
    CleanTierFree(f.tier);
    hide CleanTier, FreeText, WithLimits, StoredTier;
  }

  /**
   * Every posted row of a saved form: it is on if and only if it is not posted as suspended, and is free or was
   * on and not suspended. A paid service that is resumed is active but stays off until it is activated.
   */
  lemma PostedRowExact(rows: Rows, catalog: seq<CatalogItem>, form: Form, i: nat)
    requires DistinctKeys(catalog) && i < |catalog| && catalog[i].key in form
    requires SaveRows(rows, catalog, form).Saved?
    ensures catalog[i].key in SaveRows(rows, catalog, form).rows
    ensures var (e, f) := (OldRow(rows, catalog[i]), form[catalog[i].key]);
      var a := SaveRows(rows, catalog, form).rows[catalog[i].key];
      && (a.enabled <==> !f.suspended && (FreeText(f.tier) || (e.status != "suspended" && e.enabled)))
      && a.status == (if f.suspended then "suspended" else if FreeText(f.tier) || e.status == "suspended" then "active" else e.status)
      && a.hidden == f.hidden
      && a.tier == if FreeText(f.tier) then Some(Lower(Strip(f.tier))) else None
  {
    RowAfter(rows, catalog, form, i);
    assert GetOrCreate(rows, catalog[i]) == OldRow(rows, catalog[i]);
    assert SaveItem(rows, catalog[i], form[catalog[i].key]) ==
      SaveOne(GetOrCreate(rows, catalog[i]), catalog[i].limitFields, form[catalog[i].key]);
    hide SaveRows, SaveItem, SaveOne, GetOrCreate, FreeText;
    SavedOneExact(OldRow(rows, catalog[i]), catalog[i].limitFields, form[catalog[i].key]);
  }

  /** A paid service that is neither suspended nor posted as suspended keeps its status and its switch. */
  lemma PaidRowKept(rows: Rows, catalog: seq<CatalogItem>, form: Form, i: nat)
    requires DistinctKeys(catalog) && i < |catalog| && catalog[i].key in form
    requires SaveRows(rows, catalog, form).Saved?
    requires !FreeText(form[catalog[i].key].tier) && !form[catalog[i].key].suspended
    requires OldRow(rows, catalog[i]).status != "suspended"
    ensures catalog[i].key in SaveRows(rows, catalog, form).rows
    ensures var (e, a) := (OldRow(rows, catalog[i]), SaveRows(rows, catalog, form).rows[catalog[i].key]);
      a.status == e.status && a.enabled == e.enabled
  {
    PostedRowExact(rows, catalog, form, i);
    hide SaveRows, FreeText, OldRow;
  }

  /** The tier a row has, as text. */
  function TierText(e: Entitlement): string {
    if e.tier.Some? && FreeText(e.tier.value) then Lower(Strip(e.tier.value)) else "paid"
  }

  /** In how many of tier, hiding and suspending a row and its form differ. */
  function Differences(e: Entitlement, f: ServiceForm): nat {
    (if TierText(e) == (if FreeText(f.tier) then Lower(Strip(f.tier)) else "paid") then 0 else 1) +
    (if e.hidden == f.hidden then 0 else 1) +
    (if e.status == "suspended" <==> f.suspended then 0 else 1)
  }

  function AllDifferences(rows: Rows, catalog: seq<CatalogItem>, form: Form): nat {
    if catalog == [] then 0
    else
      var item := catalog[|catalog| - 1];
      AllDifferences(rows, catalog[..|catalog| - 1], form) +
      if item.key in form then Differences(OldRow(rows, item), form[item.key]) else 0
  }

  lemma TiersDiffer(e: Entitlement, raw: string)
    ensures TierOf(e) == CleanTier(raw) <==> TierText(e) == if FreeText(raw) then Lower(Strip(raw)) else "paid"
  {
    if e.tier.Some? {
      SameTier(e.tier.value, raw);
    } else {
      CleanTierFree(raw);
    }
    hide Lower, Strip;
  }

  lemma SameTier(a: string, b: string)
    ensures CleanTier(a) == CleanTier(b) <==>
      (if FreeText(a) then Lower(Strip(a)) else "paid") == if FreeText(b) then Lower(Strip(b)) else "paid"
  {
    hide Lower, Strip;
  }

  lemma SavedOneDiffers(e: Entitlement, fields: seq<string>, f: ServiceForm)
    requires SaveOne(e, fields, f).Some?
    ensures SaveOne(e, fields, f).value.changed == Differences(e, f)
  {
    TiersDiffer(e, f.tier);
    hide TierOf, CleanTier, TierText, FreeText, WithLimits, Lower, Strip;
  }

  /** The count a saved form reports is that of all differences between the posted rows and the form. */
  lemma {:induction false} ChangesCounted(rows: Rows, catalog: seq<CatalogItem>, form: Form)
    requires DistinctKeys(catalog) && SaveRows(rows, catalog, form).Saved?
    ensures SaveRows(rows, catalog, form).changed == AllDifferences(rows, catalog, form)
  {
    if catalog == [] {
      EmptyCatalog(rows, form);
    } else {
      hide SaveRows, SaveItem, SaveOne, Differences, GetOrCreate, OldRow;
      var (prefix, item) := (catalog[..|catalog| - 1], catalog[|catalog| - 1]);
      SaveStep(rows, catalog, form);
      PrefixDistinct(catalog);
      hide DistinctKeys, Posts;
      ChangesCounted(rows, prefix, form);
      if item.key in form {
        OtherRowsKept(rows, prefix, form, item.key);
        SameFetch(rows, SaveRows(rows, prefix, form).rows, item);
        SaveItemDiffers(rows, item, form[item.key]);
      }
    }
  }

  lemma SaveItemDiffers(rows: Rows, item: CatalogItem, f: ServiceForm)
    requires SaveItem(rows, item, f).Some?
    ensures SaveItem(rows, item, f).value.changed == Differences(OldRow(rows, item), f)
  {
    assert GetOrCreate(rows, item) == OldRow(rows, item);
    hide SaveOne, GetOrCreate, OldRow, Differences, ServiceKey;
    SavedOneDiffers(OldRow(rows, item), item.limitFields, f);
  }
}
