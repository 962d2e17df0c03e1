/** The panel's administrators: `settings_admins_post`, the bootstrap admin and the boot-time elevation. */
module AdminRoster {
  import opened AsciiText
  import opened Decimal
  import opened FreshNames
  import opened Options

  // ---------------------------------------------------------------- the table

  datatype Admin = Admin(
    id: nat, username: string, fullName: string, email: string, active: bool, superAdmin: bool)

  /** The rows in id order, the order `query.first()` meets them. */
  type Roster = seq<Admin>

  function Usernames(rows: Roster): set<string> {
    set a | a in rows :: a.username
  }

  function ById(rows: Roster, id: nat): Option<Admin> {
    if rows == [] then None else if rows[0].id == id then Some(rows[0]) else ById(rows[1..], id)
  }

  function ByUsername(rows: Roster, username: string): Option<Admin> {
    if rows == [] then None
    else if rows[0].username == username then Some(rows[0])
    else ByUsername(rows[1..], username)
  }

  /** Is the address in use, by anyone but the row with id `except`? */
  predicate EmailTaken(rows: Roster, email: string, except: Option<nat>) {
    exists a :: a in rows && Lower(a.email) == email && except != Some(a.id)
  }

  predicate ActiveSuper(a: Admin) {
    a.active && a.superAdmin
  }

  predicate OtherActiveSuper(rows: Roster, id: nat) {
    exists a :: a in rows && ActiveSuper(a) && a.id != id
  }

  function NewId(rows: Roster): (id: nat)
    ensures forall a :: a in rows ==> a.id < id
  {
    if rows == [] then 1
    else
      var rest := NewId(rows[1..]);
      if rows[0].id < rest then rest else rows[0].id + 1
  }

  function Replace(rows: Roster, a: Admin): Roster {
    if rows == [] then []
    else [if rows[0].id == a.id then a else rows[0]] + Replace(rows[1..], a)
  }

  function Remove(rows: Roster, id: nat): Roster {
    if rows == [] then []
    else (if rows[0].id == id then [] else [rows[0]]) + Remove(rows[1..], id)
  }

  // ---------------------------------------------------------------- one post

  /** The posted form, branched on its `action` field. */
  datatype Form =
    | Create(fullName: string, email: string, password: string, role: string)
    | Edit(target: string, fullName: string, email: string, password: string, role: string)
    | SetActive(target: string, enable: bool)
    | Delete(target: string)
    | UnknownAction

  datatype Outcome =
    | Saved | Forbidden | NoFullName | BadEmail | ShortPassword | EmailInUse | NotFound
    | LastSuperAdmin | NotYourself | NoSuchAction

  function CleanName(s: string): string {
    Clip(Strip(s), 160)
  }

  function CleanEmail(s: string): string {
    Clip(Lower(Strip(s)), 160)
  }

  predicate IsSuperRole(role: string) {
    Lower(Strip(role)) == "super_admin"
  }

  predicate UsernameChar(c: char) {
    'a' <= c <= 'z' || 'A' <= c <= 'Z' || '0' <= c <= '9' || c == '.' || c == '_' || c == '-'
  }

  function KeepOnly(s: string, keep: char -> bool): string {
    if s == "" then "" else (if keep(s[0]) then [s[0]] else "") + KeepOnly(s[1..], keep)
  }

  function LocalPart(email: string): string {
    if email == "" || email[0] == '@' then "" else [email[0]] + LocalPart(email[1..])
  }

  function DotSpaces(s: string): string {
    seq(|s|, i requires 0 <= i < |s| => if s[i] == ' ' then '.' else s[i])
  }

  /** The username an address stands for, before it is made unique. */
  function ResolveUsername(email: string, fullName: string): string {
    var local := if '@' in email then LocalPart(email) else "";
    var base := if local == "" then Lower(DotSpaces(Strip(fullName))) else local;
    var username := Lower(Clip(KeepOnly(base, UsernameChar), 60));
    if username == "" then "admin" else username
  }

  /** The username of a new admin, as the suffix loop leaves it. */
  ghost function NewUsername(rows: Roster, email: string, fullName: string): (username: string)
    ensures username !in Usernames(rows)
    ensures var base := ResolveUsername(email, fullName); Picks(base, Numbered(base), Usernames(rows), username)
  {
    var base := ResolveUsername(email, fullName);
    PickExists(base, Usernames(rows));
    var username :| Picks(base, Numbered(base), Usernames(rows), username);
    PicksUnique(base, Numbered(base), Usernames(rows), username, username);
    username
  }

  lemma PickExists(base: string, taken: set<string>)
    ensures exists username :: Picks(base, Numbered(base), taken, username)
  {
    if base !in taken {
      assert Picks(base, Numbered(base), taken, base);
    } else {
      var k := NumberedFree(base, taken);
      LeastFree(base, taken, k);
    }
  }

  lemma {:induction false} LeastFree(base: string, taken: set<string>, k: nat)
    requires 2 <= k && Numbered(base)(k) !in taken && base in taken
    ensures exists username :: Picks(base, Numbered(base), taken, username)
  {
    if j :| 2 <= j < k && Numbered(base)(j) !in taken {
      LeastFree(base, taken, j);
    } else {
      assert Picks(base, Numbered(base), taken, Numbered(base)(k));
    }
  }

  /** What the form is refused for, if it is; `me` is the signed-in super admin. */
  function Refusal(rows: Roster, me: Admin, form: Form): Outcome {
    match form
    case Create(fullName, email, password, _) =>
      if CleanName(fullName) == "" then NoFullName
      else if '@' !in CleanEmail(email) then BadEmail
      else if |password| < 8 then ShortPassword
      else if EmailTaken(rows, CleanEmail(email), None) then EmailInUse
      else Saved
    case Edit(target, fullName, email, password, role) =>
      var found := ByUsername(rows, Strip(target));
      if found.None? then NotFound
      else if CleanName(fullName) == "" then NoFullName
      else if '@' !in CleanEmail(email) then BadEmail
      else if EmailTaken(rows, CleanEmail(email), Some(found.value.id)) then EmailInUse
      else if me.id == found.value.id && found.value.superAdmin && !IsSuperRole(role) && !OtherActiveSuper(rows, me.id) then
        LastSuperAdmin
      else if password != "" && |password| < 8 then ShortPassword
      else Saved
    case SetActive(target, enable) =>
      var found := ByUsername(rows, Strip(target));
      if found.None? then NotFound
      else if me.id == found.value.id && !enable then NotYourself
      else Saved
    case Delete(target) =>
      var found := ByUsername(rows, Strip(target));
      if found.None? then NotFound
      else if me.id == found.value.id then NotYourself
      else if found.value.superAdmin && !OtherActiveSuper(rows, found.value.id) then LastSuperAdmin
      else Saved
    case UnknownAction => NoSuchAction
  }

  ghost function Changed(rows: Roster, form: Form): Roster
    requires form.Edit? || form.SetActive? || form.Delete? ==> ByUsername(rows, Strip(form.target)).Some?
  {
    match form
    case Create(fullName, email, _, role) =>
      var (n, e) := (CleanName(fullName), CleanEmail(email));
      rows + [Admin(NewId(rows), NewUsername(rows, e, n), n, e, true, IsSuperRole(role))]
    case Edit(target, fullName, email, _, role) =>
      var a := ByUsername(rows, Strip(target)).value;
      Replace(rows, a.(fullName := CleanName(fullName), email := CleanEmail(email), superAdmin := IsSuperRole(role)))
    case SetActive(target, enable) =>
      Replace(rows, ByUsername(rows, Strip(target)).value.(active := enable))
    case Delete(target) => Remove(rows, ByUsername(rows, Strip(target)).value.id)
    case UnknownAction => rows
  }

  /** `super_admin_required`: only a row that is there, active and super gets through. */
  predicate Admitted(rows: Roster, actor: nat) {
    ById(rows, actor).Some? && ActiveSuper(ById(rows, actor).value)
  }

  function OutcomeOf(rows: Roster, actor: nat, form: Form): Outcome {
    if Admitted(rows, actor) then Refusal(rows, ById(rows, actor).value, form) else Forbidden
  }

  ghost function AfterPost(rows: Roster, actor: nat, form: Form): Roster {
    if OutcomeOf(rows, actor, form).Saved? then Changed(rows, form) else rows
  }

  class AdminPanel {
    var rows: Roster

    constructor ()
      ensures rows == []
    {
      rows := [];
    }

    method SettingsAdminsPost(actor: nat, form: Form) returns (outcome: Outcome)
      modifies this
      ensures outcome == OutcomeOf(old(rows), actor, form)
      ensures rows == AfterPost(old(rows), actor, form)
    {
      if !Admitted(rows, actor) {
        return Forbidden;
      }
      outcome := Refusal(rows, ById(rows, actor).value, form);
      if outcome != Saved {
        return;
      }
      match form
      case Create(fullName, email, _, role) =>
        var (n, e) := (CleanName(fullName), CleanEmail(email));
        var base := ResolveUsername(e, n);
        var username := FreshUsername(base, Usernames(rows));
        PicksUnique(base, Numbered(base), Usernames(rows), username, NewUsername(rows, e, n));
        rows := rows + [Admin(NewId(rows), username, n, e, true, IsSuperRole(role))];
      case Edit(target, fullName, email, _, role) =>
        var a := ByUsername(rows, Strip(target)).value;
        rows := Replace(rows, a.(fullName := CleanName(fullName), email := CleanEmail(email), superAdmin := IsSuperRole(role)));
      case SetActive(target, enable) =>
        rows := Replace(rows, ByUsername(rows, Strip(target)).value.(active := enable));
      case Delete(target) =>
        rows := Remove(rows, ByUsername(rows, Strip(target)).value.id);
      case UnknownAction =>
    }

    method Boot(config: Config) returns (ok: bool)
      modifies this
      ensures ok == Boots(old(rows), config)
      ensures rows == if ok then AfterBoot(old(rows), config) else old(rows)
    {
      if rows == [] {
        if Strip(config.username) == "" || config.password == "" || (config.production && config.weakPassword) {
          return false;
        }
        rows := [Admin(1, Strip(config.username), "License Admin", Strip(config.email), true, false)];
      }
      var primary := ByUsername(rows, config.username);
      rows := Replace(rows, (if primary.Some? then primary.value else rows[0]).(superAdmin := true));
      ok := true;
    }
  }

  // ---------------------------------------------------------------- boot

  /** The settings the bootstrap admin is made from. */
  datatype Config = Config(username: string, password: string, email: string, production: bool, weakPassword: bool)

  predicate Boots(rows: Roster, config: Config) {
    rows != [] || (Strip(config.username) != "" && config.password != "" && !(config.production && config.weakPassword))
  }

  function Bootstrapped(rows: Roster, config: Config): (r: Roster)
    ensures r != []
  {
    if rows == [] then [Admin(1, Strip(config.username), "License Admin", Strip(config.email), true, false)] else rows
  }

  /** The admin of the configured name, else the one with the lowest id, is made super. */
  function AfterBoot(rows: Roster, config: Config): Roster {
    var r := Bootstrapped(rows, config);
    var primary := ByUsername(r, config.username);
    Replace(r, (if primary.Some? then primary.value else r[0]).(superAdmin := true))
  }

  // ---------------------------------------------------------------- the invariant

  /** No two admins share an id, a username or a lower-cased email. */
  predicate Unique(rows: Roster) {
    forall i, j :: 0 <= i < j < |rows| ==> Apart(rows[i], rows[j])
  }

  predicate Apart(a: Admin, b: Admin) {
    a.id != b.id && a.username != b.username && Lower(a.email) != Lower(b.email)
  }

  predicate HasActiveSuper(rows: Roster) {
    exists a :: a in rows && ActiveSuper(a)
  }

  predicate Sound(rows: Roster) {
    Unique(rows) && HasActiveSuper(rows)
  }

  lemma {:induction false} ByIdFinds(rows: Roster, id: nat)
    ensures ById(rows, id).Some? ==> ById(rows, id).value in rows && ById(rows, id).value.id == id
  {
    if rows != [] {
      ByIdFinds(rows[1..], id);
    }
  }

  lemma {:induction false} ByUsernameFinds(rows: Roster, username: string)
    ensures ByUsername(rows, username).Some? ==>
      ByUsername(rows, username).value in rows && ByUsername(rows, username).value.username == username
  {
    if rows != [] {
      ByUsernameFinds(rows[1..], username);
    }
  }

  lemma {:induction false} ReplaceAt(rows: Roster, a: Admin)
    ensures |Replace(rows, a)| == |rows|
    ensures forall i :: 0 <= i < |rows| ==> Replace(rows, a)[i] == if rows[i].id == a.id then a else rows[i]
  {
    if rows != [] {
      ReplaceAt(rows[1..], a);
    }
  }

  lemma {:induction false} RemoveHolds(rows: Roster, id: nat)
    ensures forall a :: a in Remove(rows, id) <==> a in rows && a.id != id
  {
    if rows != [] {
      assert rows == [rows[0]] + rows[1..];
      RemoveHolds(rows[1..], id);
    }
  }

  lemma {:induction false} RemoveUnique(rows: Roster, id: nat)
    requires Unique(rows)
    ensures Unique(Remove(rows, id))
  {
    if rows != [] {
      RemoveUnique(rows[1..], id);
      RemoveHolds(rows[1..], id);
      var rest := Remove(rows[1..], id);
      forall j | 0 <= j < |rest| ensures Apart(rows[0], rest[j]) {
        assert rest[j] in rows[1..];
        var k :| 0 < k < |rows| && rows[k] == rest[j];
      }
    }
  }

  lemma ReplaceUnique(rows: Roster, was: Admin, a: Admin)
    requires Unique(rows) && was in rows && a.id == was.id && a.username == was.username
    requires forall b :: b in rows && b.id != a.id ==> Lower(b.email) != Lower(a.email)
    ensures Unique(Replace(rows, a))
  {
    ReplaceAt(rows, a);
    hide Lower, Replace;
    var r := Replace(rows, a);
    var k :| 0 <= k < |rows| && rows[k] == was;
    forall i, j | 0 <= i < j < |r| ensures Apart(r[i], r[j]) {
      assert Apart(rows[i], rows[j]);
      assert i != k ==> Apart(rows[i], rows[k]) || Apart(rows[k], rows[i]);
      assert j != k ==> Apart(rows[j], rows[k]) || Apart(rows[k], rows[j]);
      assert rows[i] in rows && rows[j] in rows;
    }
  }

  lemma AppendUnique(rows: Roster, a: Admin)
    requires Unique(rows) && forall b :: b in rows ==> Apart(b, a)
    ensures Unique(rows + [a])
  {
    hide Apart;
    forall i | 0 <= i < |rows| ensures Apart((rows + [a])[i], a) {
      assert rows[i] in rows;
    }
  }

  lemma CleanEmailIsLower(s: string)
    ensures Lower(CleanEmail(s)) == CleanEmail(s)
  {
  }

  lemma CreateSound(rows: Roster, form: Form)
    requires Sound(rows) && form.Create? && !EmailTaken(rows, CleanEmail(form.email), None)
    ensures Sound(Changed(rows, form))
  {
    var (n, e) := (CleanName(form.fullName), CleanEmail(form.email));
    var a := Admin(NewId(rows), NewUsername(rows, e, n), n, e, true, IsSuperRole(form.role));
    CleanEmailIsLower(form.email);
    hide CleanEmail, CleanName, NewUsername, Lower, IsSuperRole;
    forall b | b in rows ensures Apart(b, a) {
      assert b.username in Usernames(rows);
    }
    AppendUnique(rows, a);
    var s :| s in rows && ActiveSuper(s);
    assert s in rows + [a];
  }

  lemma EditSound(rows: Roster, me: Admin, form: Form)
    requires Sound(rows) && form.Edit? && me in rows && ActiveSuper(me) && Refusal(rows, me, form) == Saved
    ensures Sound(Changed(rows, form))
  {
    var was := ByUsername(rows, Strip(form.target)).value;
    var a := was.(fullName := CleanName(form.fullName), email := CleanEmail(form.email), superAdmin := IsSuperRole(form.role));
    ByUsernameFinds(rows, Strip(form.target));
    CleanEmailIsLower(form.email);
    hide CleanEmail, CleanName, Lower, IsSuperRole, Strip, ByUsername, Apart;
    assert forall b :: b in rows && b.id != a.id ==> Lower(b.email) != Lower(a.email);
    ReplaceUnique(rows, was, a);
    if was.id == me.id {
      if a.superAdmin {
        SameId(rows, was, me);
        ReplacedSuper(rows, was, a, a);
      } else {
        SameId(rows, was, me);
        var s :| s in rows && ActiveSuper(s) && s.id != me.id;
        ReplacedSuper(rows, was, a, s);
      }
    } else {
      ReplacedSuper(rows, was, a, me);
    }
  }

  lemma RowsApart(rows: Roster, i: nat, j: nat)
    requires Unique(rows) && i < |rows| && j < |rows|
    ensures i != j ==>
      rows[i].id != rows[j].id && rows[i].username != rows[j].username && Lower(rows[i].email) != Lower(rows[j].email)
  {
    hide Lower;
    assert i < j ==> Apart(rows[i], rows[j]);
    assert j < i ==> Apart(rows[j], rows[i]);
  }

  lemma SameId(rows: Roster, a: Admin, b: Admin)
    requires Unique(rows) && a in rows && b in rows && a.id == b.id
    ensures a == b
  {
    var i: nat :| i < |rows| && rows[i] == a;
    var j: nat :| j < |rows| && rows[j] == b;
    RowsApart(rows, i, j);
  }

  /** The replaced row itself, and every row with another id, is there after the replacement. */
  lemma ReplacedSuper(rows: Roster, was: Admin, a: Admin, s: Admin)
    requires was in rows && was.id == a.id && ActiveSuper(s)
    requires s == a || (s in rows && s.id != a.id)
    ensures HasActiveSuper(Replace(rows, a))
  {
    ReplaceAt(rows, a);
    var k :| 0 <= k < |rows| && rows[k] == if s == a then was else s;
    assert Replace(rows, a)[k] == s;
  }

  lemma SetActiveSound(rows: Roster, me: Admin, form: Form)
    requires Sound(rows) && form.SetActive? && me in rows && ActiveSuper(me) && Refusal(rows, me, form) == Saved
    ensures Sound(Changed(rows, form))
  {
    var was := ByUsername(rows, Strip(form.target)).value;
    var a := was.(active := form.enable);
    ByUsernameFinds(rows, Strip(form.target));
    hide Strip, ByUsername, Lower;
    forall b | b in rows && b.id != a.id ensures Lower(b.email) != Lower(a.email) {
      DistinctEmails(rows, was, b);
    }
    ReplaceUnique(rows, was, a);
    if was.id == me.id {
      SameId(rows, was, me);
      ReplacedSuper(rows, was, a, a);
    } else {
      ReplacedSuper(rows, was, a, me);
    }
  }

  lemma DistinctEmails(rows: Roster, a: Admin, b: Admin)
    requires Unique(rows) && a in rows && b in rows && a.id != b.id
    ensures Lower(a.email) != Lower(b.email)
  {
    var i: nat :| i < |rows| && rows[i] == a;
    var j: nat :| j < |rows| && rows[j] == b;
    RowsApart(rows, i, j);
  }

  lemma DeleteSound(rows: Roster, me: Admin, form: Form)
    requires Sound(rows) && form.Delete? && me in rows && ActiveSuper(me) && Refusal(rows, me, form) == Saved
    ensures Sound(Changed(rows, form))
  {
    var a := ByUsername(rows, Strip(form.target)).value;
    RemoveUnique(rows, a.id);
    RemoveHolds(rows, a.id);
    assert me in Remove(rows, a.id);
  }

  lemma PostSound(rows: Roster, actor: nat, form: Form)
    requires Sound(rows)
    ensures Sound(AfterPost(rows, actor, form))
  {
    if OutcomeOf(rows, actor, form).Saved? {
      ByIdFinds(rows, actor);
      var me := ById(rows, actor).value;
      hide Sound, Changed;
      match form
      case Create(_, _, _, _) => CreateSound(rows, form);
      case Edit(_, _, _, _, _) => EditSound(rows, me, form);
      case SetActive(_, _) => SetActiveSound(rows, me, form);
      case Delete(_) => DeleteSound(rows, me, form);
    }
  }

  lemma BootSound(rows: Roster, config: Config)
    requires rows == [] || Sound(rows)
    ensures Sound(AfterBoot(rows, config))
  {
    var r := Bootstrapped(rows, config);
    var primary := ByUsername(r, config.username);
    ByUsernameFinds(r, config.username);
    var was := if primary.Some? then primary.value else r[0];
    var a := was.(superAdmin := true);
    assert Unique(r) && (HasActiveSuper(r) || (rows == [] && |r| == 1 && r[0].active));
    hide Strip, ByUsername, Lower;
    forall b | b in r && b.id != a.id ensures Lower(b.email) != Lower(a.email) {
      DistinctEmails(r, was, b);
    }
    ReplaceUnique(r, was, a);
    if rows == [] {
      ReplacedSuper(r, was, a, a);
    } else {
      var s :| s in r && ActiveSuper(s);
      if s.id == was.id {
        SameId(r, s, was);
        ReplacedSuper(r, was, a, a);
      } else {
        ReplacedSuper(r, was, a, s);
      }
    }
  }

  // ---------------------------------------------------------------- whole runs

  /** A form posted by whoever is signed in, or a restart of the panel. */
  datatype Event = Posted(actor: nat, form: Form) | Restarted(config: Config)

  ghost function After(rows: Roster, events: seq<Event>): Roster {
    if events == [] then rows
    else
      var before := After(rows, events[..|events| - 1]);
      match events[|events| - 1]
      case Posted(actor, form) => AfterPost(before, actor, form)
      case Restarted(config) => if Boots(before, config) then AfterBoot(before, config) else before
  }

  /**
   * From a first boot on an empty table, no sequence of posts and restarts leaves the panel without an
   * active super admin, or gives two admins the same username or email.
   */
  lemma {:induction false} RosterStaysSound(first: Config, events: seq<Event>)
    requires Boots([], first)
    ensures Sound(After(AfterBoot([], first), events))
  {
    if events == [] {
      BootSound([], first);
    } else {
      var rows := After(AfterBoot([], first), events[..|events| - 1]);
      RosterStaysSound(first, events[..|events| - 1]);
      match events[|events| - 1]
      case Posted(actor, form) => PostSound(rows, actor, form);
      case Restarted(config) => BootSound(rows, config);
    }
  }

  /** So an active super admin can always be found to sign in with. */
  lemma SomeoneCanAdminister(first: Config, events: seq<Event>) returns (actor: nat)
    requires Boots([], first)
    ensures Admitted(After(AfterBoot([], first), events), actor)
  {
    RosterStaysSound(first, events);
    var rows := After(AfterBoot([], first), events);
    var a :| a in rows && ActiveSuper(a);
    ByIdOf(rows, a);
    actor := a.id;
  }

  lemma {:induction false} ByIdOf(rows: Roster, a: Admin)
    requires Unique(rows) && a in rows
    ensures ById(rows, a.id) == Some(a)
  {
    if rows[0] != a {
      assert rows == [rows[0]] + rows[1..];
      var k :| 0 < k < |rows| && rows[k] == a;
      assert Apart(rows[0], rows[k]);
      ByIdOf(rows[1..], a);
    }
  }

  /** The guard on deleting the last active super admin never fires: whoever deletes is another one. */
  lemma DeleteGuardIsRedundant(rows: Roster, actor: nat, target: string)
    ensures OutcomeOf(rows, actor, Delete(target)) != LastSuperAdmin
  {
    ByIdFinds(rows, actor);
  }

  /** A post leaves every row but its target alone, and only a signed-in active super admin changes any. */
  lemma OthersUntouched(rows: Roster, actor: nat, form: Form, a: Admin)
    requires a in rows && Unique(rows)
    requires form.Edit? || form.SetActive? || form.Delete? ==> a.username != Strip(form.target)
    ensures a in AfterPost(rows, actor, form)
    ensures !Admitted(rows, actor) ==> AfterPost(rows, actor, form) == rows
  {
    if OutcomeOf(rows, actor, form).Saved? && (form.Edit? || form.SetActive? || form.Delete?) {
      ByUsernameFinds(rows, Strip(form.target));
      var target := ByUsername(rows, Strip(form.target)).value;
      hide Lower, Strip, CleanEmail, CleanName, IsSuperRole, ByUsername;
      var k :| 0 <= k < |rows| && rows[k] == a;
      if a.id == target.id {
        SameId(rows, a, target);
      }
      if form.Delete? {
        RemoveHolds(rows, target.id);
      } else {
        assert exists b: Admin :: b.id == target.id && AfterPost(rows, actor, form) == Replace(rows, b);
        var b: Admin :| b.id == target.id && AfterPost(rows, actor, form) == Replace(rows, b);
        ReplaceAt(rows, b);
        assert Replace(rows, b)[k] == a;
      }
    }
  }

  // ---------------------------------------------------------------- what a post asks for, and what it writes

  /** Some other row is an active super admin, or this one stays super. */
  predicate KeepsASuper(rows: Roster, a: Admin, stays: bool) {
    stays || exists b :: b in rows && b.id != a.id && b.active && b.superAdmin
  }

  /** No row, but the one of that id, has the address in any case. */
  predicate AddressFree(rows: Roster, email: string, except: Option<nat>) {
    forall b :: b in rows && except != Some(b.id) ==> Lower(b.email) != email
  }

  /** What has to be right about a form for `me` to have it saved. */
  ghost predicate Permitted(rows: Roster, me: Admin, form: Form) {
    match form
    case Create(fullName, email, password, _) =>
      && Strip(fullName) != "" && '@' in Clip(Lower(Strip(email)), 160) && |password| >= 8
      && AddressFree(rows, Clip(Lower(Strip(email)), 160), None)
    case Edit(target, fullName, email, password, role) =>
      exists a :: a in rows && a.username == Strip(target)
        && Strip(fullName) != "" && '@' in Clip(Lower(Strip(email)), 160) && (password == "" || |password| >= 8)
        && AddressFree(rows, Clip(Lower(Strip(email)), 160), Some(a.id))
        && (a.id == me.id && a.superAdmin ==> KeepsASuper(rows, a, Lower(Strip(role)) == "super_admin"))
    case SetActive(target, enable) => exists a :: a in rows && a.username == Strip(target) && (a.id == me.id ==> enable)
    case Delete(target) => exists a :: a in rows && a.username == Strip(target) && a.id != me.id
    case UnknownAction => false
  }

  lemma ByUsernameIff(rows: Roster, username: string, a: Admin)
    requires Unique(rows)
    ensures a in rows && a.username == username <==> ByUsername(rows, username) == Some(a)
  {
    ByUsernameFinds(rows, username);
    if a in rows && a.username == username {
      SomeByUsername(rows, username);
      var b := ByUsername(rows, username).value;
      hide ByUsername;
      SameName(rows, a, b);
    }
  }

  lemma {:induction false} SomeByUsername(rows: Roster, username: string)
    requires exists a :: a in rows && a.username == username
    ensures ByUsername(rows, username).Some?
  {
    if rows[0].username != username {
      assert rows == [rows[0]] + rows[1..];
      SomeByUsername(rows[1..], username);
    }
  }

  lemma SameName(rows: Roster, a: Admin, b: Admin)
    requires Unique(rows) && a in rows && b in rows && a.username == b.username
    ensures a == b
  {
    var i: nat :| i < |rows| && rows[i] == a;
    var j: nat :| j < |rows| && rows[j] == b;
    RowsApart(rows, i, j);
  }

  /** Only an active super admin of the table is admitted. */
  lemma AdmittedIff(rows: Roster, actor: nat, me: Admin)
    requires Unique(rows)
    ensures me in rows && me.id == actor && me.active && me.superAdmin <==> Admitted(rows, actor) && ById(rows, actor) == Some(me)
  {
    ByIdFinds(rows, actor);
    if me in rows && me.id == actor {
      ByIdOf(rows, me);
    }
  }

  lemma ClippedName(s: string)
    ensures CleanName(s) == "" <==> Strip(s) == ""
  {
    hide Strip;
  }

  lemma SavedWhen(rows: Roster, me: Admin, form: Form)
    requires Unique(rows) && me in rows && me.active && me.superAdmin
    ensures Refusal(rows, me, form) == Saved <==> Permitted(rows, me, form)
  {
    hide Strip, Lower, ByUsername, Clip, Unique;
    match form
    case Create(fullName, email, _, _) => ClippedName(fullName);
    case Edit(target, fullName, email, password, role) =>
      ClippedName(fullName);
      forall a ensures a in rows && a.username == Strip(target) <==> ByUsername(rows, Strip(target)) == Some(a) {
        ByUsernameIff(rows, Strip(target), a);
      }
    case SetActive(target, _) =>
      forall a ensures a in rows && a.username == Strip(target) <==> ByUsername(rows, Strip(target)) == Some(a) {
        ByUsernameIff(rows, Strip(target), a);
      }
    case Delete(target) =>
      forall a ensures a in rows && a.username == Strip(target) <==> ByUsername(rows, Strip(target)) == Some(a) {
        ByUsernameIff(rows, Strip(target), a);
      }
    case UnknownAction =>
  }

  /** A form is saved if and only if it is posted by an active super admin and right in itself. */
  lemma SavedIff(rows: Roster, actor: nat, form: Form)
    requires Unique(rows)
    ensures OutcomeOf(rows, actor, form) == Saved <==>
      exists me :: me in rows && me.id == actor && me.active && me.superAdmin && Permitted(rows, me, form)
  {
    hide Refusal, Permitted, Unique, ById;
    forall me
      ensures me in rows && me.id == actor && me.active && me.superAdmin <==> Admitted(rows, actor) && ById(rows, actor) == Some(me)
    {
      AdmittedIff(rows, actor, me);
    }
    if Admitted(rows, actor) {
      SavedWhen(rows, ById(rows, actor).value, form);
    }
  }

  /** An address whose local part is plain names its own user; the suffix loop only adds to it. */
  lemma PlainLocalPart(local: string, domain: string, fullName: string)
    requires local != "" && |local| <= 60
    requires forall c :: c in local ==> 'a' <= c <= 'z' || '0' <= c <= '9' || c == '.' || c == '_' || c == '-'
    ensures ResolveUsername(local + "@" + domain, fullName) == local
  {
    assert forall i :: 0 <= i < |local| ==> local[i] in local;
    LocalPartOf(local, domain);
    KeepsAll(local);
    assert '@' in local + "@" + domain;
    assert Lower(local) == local;
  }

  lemma {:induction false} LocalPartOf(local: string, domain: string)
    requires '@' !in local
    ensures LocalPart(local + "@" + domain) == local
  {
    if local == "" {
      assert local + "@" + domain == "@" + domain;
    } else {
      LocalPartOf(local[1..], domain);
      assert (local + "@" + domain)[1..] == local[1..] + "@" + domain;
    }
  }

  lemma {:induction false} KeepsAll(s: string)
    requires forall i :: 0 <= i < |s| ==> UsernameChar(s[i])
    ensures KeepOnly(s, UsernameChar) == s
  {
    if s != "" {
      KeepsAll(s[1..]);
    }
  }

  lemma {:induction false} KeptChars(s: string, keep: char -> bool)
    ensures |KeepOnly(s, keep)| <= |s| && forall c :: c in KeepOnly(s, keep) <==> c in s && keep(c)
  {
    if s != "" {
      assert s == [s[0]] + s[1..];
      KeptChars(s[1..], keep);
    }
  }

  /** Any other username is built of the same characters, in lower case, and is never empty. */
  lemma UsernameChars(email: string, fullName: string)
    ensures var u := ResolveUsername(email, fullName);
      && 1 <= |u| <= 60
      && forall c :: c in u ==> 'a' <= c <= 'z' || '0' <= c <= '9' || c == '.' || c == '_' || c == '-'
  {
    var local := if '@' in email then LocalPart(email) else "";
    var base := if local == "" then Lower(DotSpaces(Strip(fullName))) else local;
    KeptChars(base, UsernameChar);
    var kept := KeepOnly(base, UsernameChar);
    var u := Lower(Clip(kept, 60));
    assert ResolveUsername(email, fullName) == if u == "" then "admin" else u;
    hide KeepOnly, LocalPart, DotSpaces, Strip, ResolveUsername;
    forall c | c in u ensures 'a' <= c <= 'z' || '0' <= c <= '9' || c == '.' || c == '_' || c == '-' {
      var i :| 0 <= i < |u| && u[i] == c;
      assert kept[i] in kept && c == LowerChar(kept[i]);
    }
  }

  lemma PickedName(base: string, taken: set<string>, username: string)
    requires Picks(base, Numbered(base), taken, username)
    ensures username == base || (base in taken && exists k: nat :: 2 <= k && username == base + NatText(k))
  {
    hide NatText;
    if base in taken {
      var k: nat :| 2 <= k && username == Numbered(base)(k);
      assert username == base + NatText(k);
    }
  }

  /** The new row of a saved create: active, with the posted name and address, super exactly for the posted role. */
  lemma CreateWrites(rows: Roster, actor: nat, form: Form) returns (a: Admin)
    requires form.Create? && OutcomeOf(rows, actor, form) == Saved
    ensures AfterPost(rows, actor, form) == rows + [a]
    ensures a.active && a.fullName == Clip(Strip(form.fullName), 160) && a.email == Clip(Lower(Strip(form.email)), 160)
    ensures a.superAdmin <==> Lower(Strip(form.role)) == "super_admin"
    ensures forall b :: b in rows ==> b.id < a.id && b.username != a.username
    ensures var base := ResolveUsername(a.email, a.fullName);
      a.username == base || (base in Usernames(rows) && exists k: nat :: 2 <= k && a.username == base + NatText(k))
  {
    var (n, e) := (CleanName(form.fullName), CleanEmail(form.email));
    a := Admin(NewId(rows), NewUsername(rows, e, n), n, e, true, IsSuperRole(form.role));
    assert forall b :: b in rows ==> b.username in Usernames(rows);
    hide NewUsername, Lower, Strip, Clip, Refusal, ResolveUsername, Picks, Numbered;
    PickedName(ResolveUsername(e, n), Usernames(rows), a.username);
  }

  /** A saved edit writes the name, the address and the tier of the named row, and nothing else. */
  lemma EditWrites(rows: Roster, actor: nat, form: Form, i: nat)
    requires Unique(rows) && form.Edit? && OutcomeOf(rows, actor, form) == Saved && i < |rows|
    ensures |AfterPost(rows, actor, form)| == |rows|
    ensures AfterPost(rows, actor, form)[i] ==
      if rows[i].username != Strip(form.target) then rows[i]
      else rows[i].(fullName := Clip(Strip(form.fullName), 160), email := Clip(Lower(Strip(form.email)), 160),
                    superAdmin := Lower(Strip(form.role)) == "super_admin")
  {
    var was := ByUsername(rows, Strip(form.target)).value;
    var a := was.(fullName := CleanName(form.fullName), email := CleanEmail(form.email), superAdmin := IsSuperRole(form.role));
    ByUsernameFinds(rows, Strip(form.target));
    assert AfterPost(rows, actor, form) == Replace(rows, a);
    ReplaceAt(rows, a);
    hide Lower, Strip, Clip, ByUsername, Replace, AfterPost;
    RowNamed(rows, was, i);
  }

  lemma RowNamed(rows: Roster, was: Admin, i: nat)
    requires Unique(rows) && was in rows && i < |rows|
    ensures rows[i].id == was.id <==> rows[i].username == was.username
    ensures rows[i].id == was.id ==> rows[i] == was
  {
    if rows[i].username == was.username {
      SameName(rows, rows[i], was);
    }
    if rows[i].id == was.id {
      SameId(rows, rows[i], was);
    }
  }

  /** Enabling and disabling write that one field of the named row. */
  lemma SetActiveWrites(rows: Roster, actor: nat, form: Form, i: nat)
    requires Unique(rows) && form.SetActive? && OutcomeOf(rows, actor, form) == Saved && i < |rows|
    ensures |AfterPost(rows, actor, form)| == |rows|
    ensures AfterPost(rows, actor, form)[i] ==
      if rows[i].username != Strip(form.target) then rows[i] else rows[i].(active := form.enable)
  {
    var was := ByUsername(rows, Strip(form.target)).value;
    ByUsernameFinds(rows, Strip(form.target));
    assert AfterPost(rows, actor, form) == Replace(rows, was.(active := form.enable));
    ReplaceAt(rows, was.(active := form.enable));
    hide Lower, Strip, ByUsername, Replace, AfterPost;
    RowNamed(rows, was, i);
  }

  /** A saved delete takes out the named row and leaves the others in order. */
  lemma DeleteWrites(rows: Roster, actor: nat, form: Form) returns (k: nat)
    requires Unique(rows) && form.Delete? && OutcomeOf(rows, actor, form) == Saved
    ensures k < |rows| && rows[k].username == Strip(form.target)
    ensures AfterPost(rows, actor, form) == rows[..k] + rows[k + 1..]
    ensures forall a :: a in AfterPost(rows, actor, form) ==> a.username != Strip(form.target)
  {
    var was := ByUsername(rows, Strip(form.target)).value;
    ByUsernameFinds(rows, Strip(form.target));
    assert AfterPost(rows, actor, form) == Remove(rows, was.id);
    hide Lower, Strip, ByUsername, AfterPost, Apart;
    k :| k < |rows| && rows[k] == was;
    RemoveHolds(rows, was.id);
    forall a | a in rows && a.id != was.id ensures a.username != was.username {
      if a.username == was.username {
        SameName(rows, a, was);
      }
    }
    hide Remove;
    RemoveAt(rows, k);
  }

  lemma {:induction false} RemoveAt(rows: Roster, k: nat)
    requires Unique(rows) && k < |rows|
    ensures Remove(rows, rows[k].id) == rows[..k] + rows[k + 1..]
  {
    if k == 0 {
      RemoveNone(rows[1..], rows[0].id);
    } else {
      assert Apart(rows[0], rows[k]);
      RemoveAt(rows[1..], k - 1);
      assert rows[..k] == [rows[0]] + rows[1..][..k - 1];
    }
  }

  lemma {:induction false} RemoveNone(rows: Roster, id: nat)
    requires forall i :: 0 <= i < |rows| ==> rows[i].id != id
    ensures Remove(rows, id) == rows
  {
    if rows != [] {
      RemoveNone(rows[1..], id);
    }
  }

  /** The row a start makes super: the one of the configured name or, if there is none, the first. */
  predicate Primary(rows: Roster, config: Config, i: nat)
    requires i < |rows|
  {
    rows[i].username == config.username || (i == 0 && forall b :: b in rows ==> b.username != config.username)
  }

  /** A start that goes through creates the configured admin on an empty table, and otherwise makes one row super. */
  lemma BootWrites(rows: Roster, config: Config)
    requires Unique(rows)
    ensures rows == [] ==> AfterBoot(rows, config) == [Admin(1, Strip(config.username), "License Admin", Strip(config.email), true, true)]
    ensures |AfterBoot(rows, config)| == if rows == [] then 1 else |rows|
    ensures forall i :: 0 <= i < |rows| ==>
      AfterBoot(rows, config)[i] == if Primary(rows, config, i) then rows[i].(superAdmin := true) else rows[i]
  {
    var r := Bootstrapped(rows, config);
    var primary := ByUsername(r, config.username);
    ByUsernameFinds(r, config.username);
    var was := if primary.Some? then primary.value else r[0];
    ReplaceAt(r, was.(superAdmin := true));
    assert AfterBoot(rows, config) == Replace(r, was.(superAdmin := true));
    hide Strip, Lower, Replace, AfterBoot;
    if rows == [] {
      OneRow(r, was);
    } else {
      if exists b :: b in rows && b.username == config.username {
        SomeByUsername(rows, config.username);
      }
      hide ByUsername;
      forall i | 0 <= i < |rows| ensures rows[i].id == was.id <==> Primary(rows, config, i) {
        RowNamed(rows, was, i);
        RowNamed(rows, rows[0], i);
      }
      forall i | 0 <= i < |rows| && rows[i].id == was.id ensures rows[i] == was {
        RowNamed(rows, was, i);
      }
    }
  }

  lemma OneRow(r: Roster, was: Admin)
    requires |r| == 1 && was in r
    ensures was == r[0]
  {
  }

  // ---------------------------------------------------------------- who is super, and why

  ghost function Step(rows: Roster, ev: Event): Roster {
    match ev
    case Posted(actor, form) => AfterPost(rows, actor, form)
    case Restarted(config) => if Boots(rows, config) then AfterBoot(rows, config) else rows
  }

  /** A start that makes the row of this id super. */
  ghost predicate Elevates(rows: Roster, ev: Event, id: nat) {
    ev.Restarted? && exists i :: 0 <= i < |rows| && rows[i].id == id && Primary(rows, ev.config, i)
  }

  /** An active super admin posts a role for the row of this id: for the one it creates, or for the one it edits. */
  ghost predicate PostsRole(rows: Roster, ev: Event, id: nat, super: bool) {
    && ev.Posted? && OutcomeOf(rows, ev.actor, ev.form) == Saved
    && (exists me :: me in rows && me.id == ev.actor && me.active && me.superAdmin)
    && match ev.form {
      case Create(_, _, _, role) =>
        (forall b :: b in rows ==> b.id < id) && id == NewId(rows) && (super <==> Lower(Strip(role)) == "super_admin")
      case Edit(target, _, _, _, role) =>
        (exists b :: b in rows && b.id == id && b.username == Strip(target)) && (super <==> Lower(Strip(role)) == "super_admin")
      case _ => false
    }
  }

  ghost predicate SuperIn(rows: Roster, id: nat) {
    exists b :: b in rows && b.id == id && b.superAdmin
  }

  /** What one event does to the tier of a row that is there after it. */
  ghost predicate TierExplained(rows: Roster, ev: Event, id: nat) {
    SuperIn(Step(rows, ev), id) <==>
      Elevates(rows, ev, id) || PostsRole(rows, ev, id, true) || (!PostsRole(rows, ev, id, false) && SuperIn(rows, id))
  }

  ghost predicate Present(rows: Roster, id: nat) {
    exists b :: b in rows && b.id == id
  }

  predicate Named(rows: Roster, id: nat, username: string) {
    exists b :: b in rows && b.id == id && b.username == username
  }

  lemma SavedByASuper(rows: Roster, actor: nat, form: Form)
    requires OutcomeOf(rows, actor, form) == Saved
    ensures exists me :: me in rows && me.id == actor && me.active && me.superAdmin
    ensures !form.UnknownAction?
  {
    ByIdFinds(rows, actor);
  }

  lemma PostsRoleWhen(rows: Roster, ev: Event, id: nat, super: bool)
    requires ev.Posted? && OutcomeOf(rows, ev.actor, ev.form) == Saved
    ensures ev.form.Create? ==> (PostsRole(rows, ev, id, super) <==>
      id == NewId(rows) && (super <==> Lower(Strip(ev.form.role)) == "super_admin"))
    ensures ev.form.Edit? ==> (PostsRole(rows, ev, id, super) <==>
      Named(rows, id, Strip(ev.form.target)) && (super <==> Lower(Strip(ev.form.role)) == "super_admin"))
    ensures !ev.form.Create? && !ev.form.Edit? ==> !PostsRole(rows, ev, id, super)
  {
    SavedByASuper(rows, ev.actor, ev.form);
    hide OutcomeOf, Lower, Strip;
  }

  lemma CreateId(rows: Roster, actor: nat, form: Form)
    requires form.Create? && OutcomeOf(rows, actor, form) == Saved
    ensures AfterPost(rows, actor, form) != [] && AfterPost(rows, actor, form)[|AfterPost(rows, actor, form)| - 1].id == NewId(rows)
  {
    hide NewUsername, Refusal, Lower, Strip, Clip;
  }

  lemma CreateTier(rows: Roster, ev: Event, id: nat)
    requires ev.Posted? && ev.form.Create? && OutcomeOf(rows, ev.actor, ev.form) == Saved
    ensures TierExplained(rows, ev, id)
    ensures Present(Step(rows, ev), id) ==> Present(rows, id) || PostsRole(rows, ev, id, true) || PostsRole(rows, ev, id, false)
  {
    PostsRoleWhen(rows, ev, id, true);
    PostsRoleWhen(rows, ev, id, false);
    var a := CreateWrites(rows, ev.actor, ev.form);
    CreateId(rows, ev.actor, ev.form);
    assert Step(rows, ev) == rows + [a] && !Elevates(rows, ev, id);
    hide OutcomeOf, AfterPost, Lower, Strip, Clip, NewId, PostsRole, Step, Elevates;
    assert a in rows + [a];
  }

  /** A row that keeps its place and id, on its own, decides whether its id is super. */
  lemma TierAt(rows: Roster, i: nat)
    requires i < |rows| && forall j :: 0 <= j < |rows| && j != i ==> rows[j].id != rows[i].id
    ensures SuperIn(rows, rows[i].id) <==> rows[i].superAdmin
    ensures Present(rows, rows[i].id)
  {
    assert rows[i] in rows;
  }

  lemma IdsApart(rows: Roster, i: nat)
    requires Unique(rows) && i < |rows|
    ensures forall j :: 0 <= j < |rows| && j != i ==> rows[j].id != rows[i].id
  {
    forall j: nat | j < |rows| && j != i ensures rows[j].id != rows[i].id {
      RowsApart(rows, i, j);
    }
  }

  predicate SameIds(rows: Roster, after: Roster) {
    |after| == |rows| && forall i :: 0 <= i < |rows| ==> after[i].id == rows[i].id
  }

  /** With every id in its place, an id is there after iff before, and its row decides its tier. */
  lemma TierInPlace(rows: Roster, after: Roster, id: nat) returns (i: nat)
    requires Unique(rows) && SameIds(rows, after)
    ensures Present(after, id) <==> Present(rows, id)
    ensures if Present(rows, id) then i < |rows| && rows[i].id == id else !SuperIn(rows, id) && !SuperIn(after, id)
    ensures Present(rows, id) ==> (SuperIn(rows, id) <==> rows[i].superAdmin) && (SuperIn(after, id) <==> after[i].superAdmin)
  {
    hide Unique;
    i := 0;
    if Present(after, id) {
      var b :| b in after && b.id == id;
      i :| 0 <= i < |after| && after[i] == b;
      assert rows[i] in rows;
    }
    if Present(rows, id) {
      var b :| b in rows && b.id == id;
      i :| 0 <= i < |rows| && rows[i] == b;
      IdsApart(rows, i);
      TierAt(rows, i);
      TierAt(after, i);
    }
  }

  lemma NamedAt(rows: Roster, i: nat, username: string)
    requires Unique(rows) && i < |rows|
    ensures Named(rows, rows[i].id, username) <==> rows[i].username == username
  {
    IdsApart(rows, i);
    assert rows[i] in rows;
    hide Unique;
  }

  lemma EditTier(rows: Roster, ev: Event, id: nat)
    requires Unique(rows) && ev.Posted? && ev.form.Edit? && OutcomeOf(rows, ev.actor, ev.form) == Saved
    ensures TierExplained(rows, ev, id)
    ensures Present(Step(rows, ev), id) <==> Present(rows, id)
  {
    PostsRoleWhen(rows, ev, id, true);
    PostsRoleWhen(rows, ev, id, false);
    var (after, name) := (Step(rows, ev), Strip(ev.form.target));
    assert after == AfterPost(rows, ev.actor, ev.form) && !Elevates(rows, ev, id);
    hide OutcomeOf, AfterPost, Lower, Strip, Clip, PostsRole, Step, Elevates, Unique, SuperIn, Present, Named;
    forall i: nat | i < |rows|
      ensures |after| == |rows| && after[i].id == rows[i].id
    {
      EditWrites(rows, ev.actor, ev.form, i);
    }
    SavedByASuper(rows, ev.actor, ev.form);
    assert SameIds(rows, after);
    var i := TierInPlace(rows, after, id);
    if Present(rows, id) {
      EditWrites(rows, ev.actor, ev.form, i);
      NamedAt(rows, i, name);
    } else {
      NotNamed(rows, id, name);
    }
  }

  lemma NotNamed(rows: Roster, id: nat, username: string)
    requires !Present(rows, id)
    ensures !Named(rows, id, username)
  {
  }

  lemma SetActiveTier(rows: Roster, ev: Event, id: nat)
    requires Unique(rows) && ev.Posted? && ev.form.SetActive? && OutcomeOf(rows, ev.actor, ev.form) == Saved
    ensures TierExplained(rows, ev, id)
    ensures Present(Step(rows, ev), id) <==> Present(rows, id)
  {
    PostsRoleWhen(rows, ev, id, true);
    PostsRoleWhen(rows, ev, id, false);
    var after := Step(rows, ev);
    assert after == AfterPost(rows, ev.actor, ev.form) && !Elevates(rows, ev, id);
    SavedByASuper(rows, ev.actor, ev.form);
    hide OutcomeOf, AfterPost, Lower, Strip, PostsRole, Step, Elevates, Unique, SuperIn, Present;
    forall i: nat | i < |rows|
      ensures |after| == |rows| && after[i].id == rows[i].id && after[i].superAdmin == rows[i].superAdmin
    {
      SetActiveWrites(rows, ev.actor, ev.form, i);
    }
    assert SameIds(rows, after);
    var i := TierInPlace(rows, after, id);
  }

  lemma RemovedTier(rows: Roster, after: Roster, k: nat, id: nat)
    requires Unique(rows) && k < |rows| && after == rows[..k] + rows[k + 1..] && Present(after, id)
    ensures Present(rows, id) && (SuperIn(after, id) <==> SuperIn(rows, id))
  {
    RemoveAt(rows, k);
    RemoveHolds(rows, rows[k].id);
    hide Remove, Unique;
    assert forall b :: b in after <==> b in rows && b.id != rows[k].id;
  }

  lemma DeleteTier(rows: Roster, ev: Event, id: nat)
    requires Unique(rows) && ev.Posted? && ev.form.Delete? && OutcomeOf(rows, ev.actor, ev.form) == Saved
    requires Present(Step(rows, ev), id)
    ensures TierExplained(rows, ev, id)
    ensures Present(rows, id)
  {
    PostsRoleWhen(rows, ev, id, true);
    PostsRoleWhen(rows, ev, id, false);
    var after := Step(rows, ev);
    assert after == AfterPost(rows, ev.actor, ev.form) && !Elevates(rows, ev, id);
    var k := DeleteWrites(rows, ev.actor, ev.form);
    hide OutcomeOf, AfterPost, Lower, Strip, PostsRole, Step, Elevates, Unique, SuperIn, Present;
    RemovedTier(rows, after, k, id);
  }

  lemma RestartTier(rows: Roster, ev: Event, id: nat)
    requires Unique(rows) && ev.Restarted? && rows != []
    ensures TierExplained(rows, ev, id)
    ensures Present(Step(rows, ev), id) <==> Present(rows, id)
  {
    BootWrites(rows, ev.config);
    var after := Step(rows, ev);
    assert after == AfterBoot(rows, ev.config);
    assert !PostsRole(rows, ev, id, true) && !PostsRole(rows, ev, id, false);
    hide AfterBoot, PostsRole, Step, Unique, SuperIn, Present, Primary;
    assert SameIds(rows, after);
    var i := TierInPlace(rows, after, id);
    if Present(rows, id) {
      IdsApart(rows, i);
    } else {
      NotElevated(rows, ev, id);
    }
  }

  lemma NotElevated(rows: Roster, ev: Event, id: nat)
    requires !Present(rows, id)
    ensures !Elevates(rows, ev, id)
  {
  }

  /** What every event does to the tier of every row that is there after it. */
  lemma StepTier(rows: Roster, ev: Event, id: nat)
    requires Sound(rows) && Present(Step(rows, ev), id)
    ensures TierExplained(rows, ev, id)
    ensures Present(rows, id) || PostsRole(rows, ev, id, true) || PostsRole(rows, ev, id, false)
  {
    hide OutcomeOf, PostsRole, AfterPost, AfterBoot, Unique, Lower, Strip;
    if ev.Restarted? {
      RestartTier(rows, ev, id);
    } else if OutcomeOf(rows, ev.actor, ev.form) == Saved {
      SavedByASuper(rows, ev.actor, ev.form);
      hide Step, Present, TierExplained;
      match ev.form
      case Create(_, _, _, _) => CreateTier(rows, ev, id);
      case Edit(_, _, _, _, _) => EditTier(rows, ev, id);
      case SetActive(_, _) => SetActiveTier(rows, ev, id);
      case Delete(_) => DeleteTier(rows, ev, id);
    } else {
      NothingSaved(rows, ev, id);
    }
  }

  lemma NothingSaved(rows: Roster, ev: Event, id: nat)
    requires ev.Posted? && OutcomeOf(rows, ev.actor, ev.form) != Saved
    ensures Step(rows, ev) == rows && TierExplained(rows, ev, id)
  {
    hide OutcomeOf;
  }

  /** The event of the run, at its place, that made the row super; place 0 is the first boot. */
  ghost predicate LastGrant(start: Roster, events: seq<Event>, k: nat, id: nat)
    requires k <= |events|
  {
    && (if k == 0 then SuperIn(start, id)
        else Elevates(After(start, events[..k - 1]), events[k - 1], id) || PostsRole(After(start, events[..k - 1]), events[k - 1], id, true))
    && forall j :: k <= j < |events| ==> !PostsRole(After(start, events[..j]), events[j], id, false)
  }

  lemma AfterLast(start: Roster, events: seq<Event>)
    requires events != []
    ensures After(start, events) == Step(After(start, events[..|events| - 1]), events[|events| - 1])
  {
    hide AfterPost, AfterBoot, Boots;
  }

  lemma GrantEarlier(start: Roster, events: seq<Event>, k: nat, id: nat)
    requires k < |events|
    ensures var n := |events| - 1;
      LastGrant(start, events, k, id) <==>
        LastGrant(start, events[..n], k, id) && !PostsRole(After(start, events[..n]), events[n], id, false)
  {
    var n := |events| - 1;
    hide PostsRole, Elevates, After, SuperIn;
    assert forall j :: 0 <= j <= n ==> events[..n][..j] == events[..j];
    assert forall j :: 0 <= j < n ==> events[..n][j] == events[j];
  }

  lemma GrantNow(start: Roster, events: seq<Event>, id: nat)
    requires events != []
    ensures var n := |events| - 1;
      LastGrant(start, events, n + 1, id) <==>
        Elevates(After(start, events[..n]), events[n], id) || PostsRole(After(start, events[..n]), events[n], id, true)
  {
  }

  /**
   * No escalation. Over any run of posts and restarts from a first boot, an admin is super if and only if the
   * boot, a later start or a role posted for it by an active super admin made it so, and no such admin has
   * posted another role for it since.
   */
  lemma {:induction false} SuperOnlyByGrant(first: Config, events: seq<Event>, id: nat)
    requires Boots([], first) && Present(After(AfterBoot([], first), events), id)
    ensures SuperIn(After(AfterBoot([], first), events), id) <==>
      exists k: nat :: k <= |events| && LastGrant(AfterBoot([], first), events, k, id)
    decreases |events|
  {
    hide *;
    var start := AfterBoot([], first);
    if events == [] {
      NoGrants(start, id);
    } else {
      var n := |events| - 1;
      var (rows, ev) := (After(start, events[..n]), events[n]);
      RosterStaysSound(first, events[..n]);
      AfterLast(start, events);
      StepTier(rows, ev, id);
      TierExplainedIs(rows, ev, id);
      GrantNow(start, events, id);
      if Present(rows, id) {
        SuperOnlyByGrant(first, events[..n], id);
      } else {
        AbsentNotSuper(rows, id);
      }
      forall k: nat | k < |events|
        ensures LastGrant(start, events, k, id) <==> LastGrant(start, events[..n], k, id) && !PostsRole(rows, ev, id, false)
      {
        GrantEarlier(start, events, k, id);
      }
    }
  }

  lemma TierExplainedIs(rows: Roster, ev: Event, id: nat)
    requires TierExplained(rows, ev, id)
    ensures SuperIn(Step(rows, ev), id) <==>
      Elevates(rows, ev, id) || PostsRole(rows, ev, id, true) || (!PostsRole(rows, ev, id, false) && SuperIn(rows, id))
  {
  }

  lemma AbsentNotSuper(rows: Roster, id: nat)
    requires !Present(rows, id)
    ensures !SuperIn(rows, id)
  {
  }

  lemma NoGrants(start: Roster, id: nat)
    ensures After(start, []) == start
    ensures SuperIn(start, id) <==> LastGrant(start, [], 0, id)
  {
    hide SuperIn;
  }
}
