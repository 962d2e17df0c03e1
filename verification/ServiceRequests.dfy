/** Customer service requests: their set-once time stamps and the SMS credit they top up. */
module ServiceRequests {
  import opened AsciiText
  import opened Options

  // ---------------------------------------------------------------- time stamps

  datatype Request = Request(
    status: string, approvedAt: Option<int>, activatedAt: Option<int>, completedAt: Option<int>, rejectedAt: Option<int>)

  const ALLOWED_STATUSES := {
    "pending", "under_review", "payment_pending", "trial_active", "approved", "active", "rejected", "cancelled", "completed"}

  datatype Stamp = Approved | Activated | Completed | Rejected

  /** Which stamps a status sets; the status is compared as it was passed. */
  predicate Sets(status: string, s: Stamp) {
    match s
    case Approved => status in {"approved", "active", "trial_active"}
    case Activated => status in {"approved", "active", "trial_active", "completed"}
    case Completed => status == "completed"
    case Rejected => status == "rejected"
  }

  function Read(r: Request, s: Stamp): Option<int> {
    match s
    case Approved => r.approvedAt
    case Activated => r.activatedAt
    case Completed => r.completedAt
    case Rejected => r.rejectedAt
  }

  function Stamped(r: Request, status: string, now: int, s: Stamp): Option<int> {
    if Sets(status, s) && Read(r, s).None? then Some(now) else Read(r, s)
  }

  /** `clean_service_request_status`: None when the status is not allowed. */
  function CleanStatus(status: string): Option<string> {
    var c := Lower(Strip(if status == "" then "pending" else status));
    if c in ALLOWED_STATUSES then Some(c) else None
  }

  function Marked(r: Request, status: string, now: int): Request {
    var c := CleanStatus(status);
    if c.None? then r
    else
      Request(c.value, Stamped(r, status, now, Approved), Stamped(r, status, now, Activated),
              Stamped(r, status, now, Completed), Stamped(r, status, now, Rejected))
  }

  class Ticket {
    var request: Request

    constructor (request: Request)
      ensures this.request == request
    {
      this.request := request;
    }

    method MarkServiceRequest(status: string, now: int) returns (ok: bool)
      modifies this
      ensures ok <==> CleanStatus(status).Some?
      ensures request == Marked(old(request), status, now)
    {
      hide CleanStatus;
      var c := CleanStatus(status);
      if c.None? {
        return false;
      }
      var r := request.(status := c.value);
      if status in {"approved", "active", "trial_active"} && r.approvedAt.None? {
        r := r.(approvedAt := Some(now));
      }
      if status in {"approved", "active", "trial_active", "completed"} && r.activatedAt.None? {
        r := r.(activatedAt := Some(now));
      }
      if status == "completed" && r.completedAt.None? {
        r := r.(completedAt := Some(now));
      }
      if status == "rejected" && r.rejectedAt.None? {
        r := r.(rejectedAt := Some(now));
      }
      request := r;
      ok := true;
    }

    /** A message by either side puts a pending request under review. */
    method Reply()
      modifies this
      ensures request == Reviewed(old(request), {"pending"})
    {
      if request.status == "pending" {
        request := request.(status := "under_review");
      }
    }

    /** So does a confirmed payment, for a request that waits for one. */
    method ConfirmPayment()
      modifies this
      ensures request == Reviewed(old(request), {"pending", "payment_pending"})
    {
      if request.status == "pending" || request.status == "payment_pending" {
        request := request.(status := "under_review");
      }
    }
  }

  function Reviewed(r: Request, waiting: set<string>): Request {
    if r.status in waiting then r.(status := "under_review") else r
  }

  /** Everything that writes a request's status, with the time at which it does. */
  datatype Act = Mark(status: string, now: int) | Reply(now: int) | ConfirmPayment(now: int)

  function Acted(r: Request, a: Act): Request {
    match a
    case Mark(status, now) => Marked(r, status, now)
    case Reply(_) => Reviewed(r, {"pending"})
    case ConfirmPayment(_) => Reviewed(r, {"pending", "payment_pending"})
  }

  function AfterMarks(r: Request, marks: seq<Act>): Request {
    if marks == [] then r
    else Acted(AfterMarks(r, marks[..|marks| - 1]), marks[|marks| - 1])
  }

  /** The mark is accepted and sets the stamp. */
  predicate Hits(m: Act, s: Stamp) {
    m.Mark? && CleanStatus(m.status).Some? && Sets(m.status, s)
  }

  /** The first mark that sets the stamp, or the number of marks. */
  function FirstSetting(marks: seq<Act>, s: Stamp): (n: nat)
    ensures n <= |marks|
  {
    if marks == [] then 0
    else
      var n := FirstSetting(marks[..|marks| - 1], s);
      if n < |marks| - 1 || Hits(marks[|marks| - 1], s) then n else |marks|
  }

  lemma {:induction false} FirstSettingExact(marks: seq<Act>, s: Stamp)
    ensures var n := FirstSetting(marks, s);
      (n < |marks| ==> Hits(marks[n], s)) && forall i :: 0 <= i < n ==> !Hits(marks[i], s)
  {
    hide Hits;
    if marks != [] {
      FirstSettingExact(marks[..|marks| - 1], s);
    }
  }

  /** Over any marks a stamp keeps the value it had, or the time of the first mark that sets it. */
  lemma {:induction false} StampIsFirst(r: Request, marks: seq<Act>, s: Stamp)
    ensures Read(AfterMarks(r, marks), s) ==
      if Read(r, s).Some? then Read(r, s)
      else if FirstSetting(marks, s) == |marks| then None
      else Some(marks[FirstSetting(marks, s)].now)
  {
    hide *;
    if marks == [] {
      NoMarks(r, s);
    } else {
      StampIsFirst(r, marks[..|marks| - 1], s);
      FirstSettingStep(marks, s);
      MarkStep(r, marks, s);
    }
  }

  lemma NoMarks(r: Request, s: Stamp)
    ensures AfterMarks(r, []) == r && FirstSetting([], s) == 0
  {
  }

  lemma MarkStep(r: Request, marks: seq<Act>, s: Stamp)
    requires marks != []
    ensures var (before, m) := (AfterMarks(r, marks[..|marks| - 1]), marks[|marks| - 1]);
      Read(AfterMarks(r, marks), s) == if Hits(m, s) && Read(before, s).None? then Some(m.now) else Read(before, s)
  {
    hide CleanStatus, Sets;
  }

  lemma FirstSettingStep(marks: seq<Act>, s: Stamp)
    requires marks != []
    ensures var n := FirstSetting(marks[..|marks| - 1], s);
      n < |marks| && FirstSetting(marks, s) == if n < |marks| - 1 || Hits(marks[|marks| - 1], s) then n else |marks|
  {
    hide Hits;
  }

  predicate Before(a: Option<int>, b: Option<int>) {
    b.Some? ==> a.Some? && a.value <= b.value
  }

  /** Approval and completion always come with an activation that is no later. */
  predicate ActivationCovers(r: Request) {
    Before(r.activatedAt, r.approvedAt) && Before(r.activatedAt, r.completedAt)
  }

  lemma MarkCovers(r: Request, status: string, now: int)
    requires ActivationCovers(r) && (r.activatedAt.Some? ==> r.activatedAt.value <= now)
    ensures ActivationCovers(Marked(r, status, now))
    ensures var a := Marked(r, status, now).activatedAt; a.Some? ==> a.value <= now
  {
    hide CleanStatus;
    assert Sets(status, Approved) || Sets(status, Completed) ==> Sets(status, Activated);
    hide Sets;
  }

  lemma ReviewCovers(r: Request, a: Act)
    requires ActivationCovers(r) && !a.Mark?
    ensures ActivationCovers(Acted(r, a)) && Acted(r, a).activatedAt == r.activatedAt
  {
  }

  lemma {:induction false} ActivationFirst(r: Request, marks: seq<Act>, start: int)
    requires ActivationCovers(r) && (r.activatedAt.Some? ==> r.activatedAt.value <= start)
    requires forall i :: 0 <= i < |marks| ==> start <= marks[i].now
    requires forall i, j :: 0 <= i < j < |marks| ==> marks[i].now <= marks[j].now
    ensures ActivationCovers(AfterMarks(r, marks))
    ensures var a := AfterMarks(r, marks).activatedAt;
      a.Some? ==> a.value <= if marks == [] then start else marks[|marks| - 1].now
  {
    if marks != [] {
      hide Marked, Reviewed, ActivationCovers;
      var (prefix, m) := (marks[..|marks| - 1], marks[|marks| - 1]);
      ActivationFirst(r, prefix, start);
      if m.Mark? {
        MarkCovers(AfterMarks(r, prefix), m.status, m.now);
      } else {
        ReviewCovers(AfterMarks(r, prefix), m);
      }
    }
  }

  /**
   * A mark leaves a stamp of its new status unset exactly when it was unset and the status was passed in
   * another spelling, which the clean-up accepts but the stamps do not.
   */
  lemma UnstampedIff(r: Request, status: string, now: int, s: Stamp)
    requires CleanStatus(status).Some? && Sets(CleanStatus(status).value, s)
    ensures Read(Marked(r, status, now), s) == None <==> Read(r, s) == None && status != CleanStatus(status).value
  {
    if Sets(status, s) {
      CleanKeeps(status, s);
    }
    hide CleanStatus, Sets;
  }

  /** A status that sets a stamp is already in its clean spelling. */
  lemma CleanKeeps(status: string, s: Stamp)
    requires Sets(status, s)
    ensures CleanStatus(status) == Some(status)
  {
    LowerKeeps(status);
  }

  predicate Word(s: string) {
    forall i :: 0 <= i < |s| ==> 'a' <= s[i] <= 'z' || s[i] == '_'
  }

  lemma WordKept(s: string)
    requires Word(s)
    ensures Strip(s) == s && Lower(s) == s
  {
    assert TrimLeft(s) == s && TrimRight(s) == s;
  }

  lemma LowerKeeps(s: string)
    requires s in {"active", "trial_active", "approved", "completed", "rejected", "payment_pending"}
    ensures Strip(s) == s && Lower(s) == s
  {
    assert Word(s);
    hide Word;
    WordKept(s);
  }

  /** Every stamp the request's status calls for is set. */
  ghost predicate StatusStamped(r: Request) {
    forall s :: Sets(r.status, s) ==> Read(r, s).Some?
  }

  /** The status is passed as the clean-up returns it, or is one it refuses. */
  predicate CleanlySpelled(a: Act) {
    a.Mark? && CleanStatus(a.status).Some? ==> CleanStatus(a.status).value == a.status
  }

  lemma ActStamps(r: Request, a: Act)
    requires StatusStamped(r) && CleanlySpelled(a)
    ensures StatusStamped(Acted(r, a))
  {
    if a.Mark? && CleanStatus(a.status).Some? {
      assert Marked(r, a.status, a.now).status == a.status;
      forall s | Sets(a.status, s) ensures Read(Marked(r, a.status, a.now), s).Some? {
        UnstampedIff(r, a.status, a.now, s);
      }
    }
    hide CleanStatus;
  }

  /**
   * Over any run of cleanly spelled marks, replies and confirmed payments, a request has every stamp its
   * status calls for: approved_at and activated_at if it is approved, active or on trial, and so on.
   */
  lemma {:induction false} StatusAlwaysStamped(r: Request, marks: seq<Act>)
    requires StatusStamped(r) && forall i :: 0 <= i < |marks| ==> CleanlySpelled(marks[i])
    ensures StatusStamped(AfterMarks(r, marks))
  {
    hide StatusStamped, CleanlySpelled, Acted;
    if marks != [] {
      StatusAlwaysStamped(r, marks[..|marks| - 1]);
      ActStamps(AfterMarks(r, marks[..|marks| - 1]), marks[|marks| - 1]);
    }
  }

  /** The statuses the panel's own pages mark a request with. */
  const PANEL_STATUSES := {"payment_pending", "trial_active", "approved", "rejected"}

  const REACHED := {"pending", "under_review", "payment_pending", "trial_active", "approved", "rejected"}

  predicate ByPanel(a: Act) {
    a.Mark? ==> a.status in PANEL_STATUSES
  }

  lemma PanelSpellsCleanly(a: Act)
    requires ByPanel(a)
    ensures CleanlySpelled(a) && (a.Mark? ==> CleanStatus(a.status) == Some(a.status))
  {
    if a.Mark? {
      LowerKeeps(a.status);
    }
  }

  /** What the pages can make of a request that was opened as pending. */
  ghost predicate PanelState(r: Request) {
    r.status in REACHED && r.completedAt == None && StatusStamped(r)
  }

  lemma PanelStep(r: Request, a: Act)
    requires PanelState(r) && ByPanel(a)
    ensures PanelState(Acted(r, a))
  {
    PanelSpellsCleanly(a);
    ActStamps(r, a);
    hide CleanStatus, StatusStamped, CleanlySpelled;
  }

  /**
   * Whatever the panel's pages do to a new request, one that is approved or on trial has its approval and
   * activation times, one that is rejected its rejection time, and none is ever completed.
   */
  lemma {:induction false} PanelRunStamped(marks: seq<Act>)
    requires forall i :: 0 <= i < |marks| ==> ByPanel(marks[i])
    ensures var r := AfterMarks(Request("pending", None, None, None, None), marks);
      && r.status in REACHED && r.completedAt == None
      && (r.status == "approved" || r.status == "trial_active" ==> r.approvedAt.Some? && r.activatedAt.Some?)
      && (r.status == "rejected" ==> r.rejectedAt.Some?)
  {
    var created := Request("pending", None, None, None, None);
    assert PanelState(created);
    PanelRun(created, marks);
    var r := AfterMarks(created, marks);
    hide AfterMarks, PANEL_STATUSES, ByPanel;
    assert Sets(r.status, Approved) ==> Read(r, Approved).Some?;
    assert Sets(r.status, Activated) ==> Read(r, Activated).Some?;
    assert Sets(r.status, Rejected) ==> Read(r, Rejected).Some?;
  }

  lemma {:induction false} PanelRun(r: Request, marks: seq<Act>)
    requires PanelState(r) && forall i :: 0 <= i < |marks| ==> ByPanel(marks[i])
    ensures PanelState(AfterMarks(r, marks))
  {
    hide PanelState, ByPanel, Acted;
    if marks != [] {
      PanelRun(r, marks[..|marks| - 1]);
      PanelStep(AfterMarks(r, marks[..|marks| - 1]), marks[|marks| - 1]);
    }
  }

  // ---------------------------------------------------------------- a mark, written out

  function Cleaned(status: string): string {
    Lower(Strip(if status == "" then "pending" else status))
  }

  predicate Known(status: string) {
    Cleaned(status) in {
      "pending", "under_review", "payment_pending", "trial_active", "approved", "active", "rejected", "cancelled", "completed"}
  }

  /** The stamp that was there, or the time of the mark if its status, as passed, is one that sets it. */
  function Set(was: Option<int>, due: bool, now: int): Option<int> {
    if was.None? && due then Some(now) else was
  }

  /** A mark with a known status writes that status, trimmed and in lower case, and the stamps it calls for; any other does nothing. */
  lemma MarkExact(r: Request, status: string, now: int)
    ensures !Known(status) ==> Marked(r, status, now) == r
    ensures Known(status) ==>
      var m := Marked(r, status, now);
      && m.status == Cleaned(status)
      && m.approvedAt == Set(r.approvedAt, status in {"approved", "active", "trial_active"}, now)
      && m.activatedAt == Set(r.activatedAt, status in {"approved", "active", "trial_active", "completed"}, now)
      && m.completedAt == Set(r.completedAt, status == "completed", now)
      && m.rejectedAt == Set(r.rejectedAt, status == "rejected", now)
  {
    assert CleanStatus(status) == if Known(status) then Some(Cleaned(status)) else None;
    hide CleanStatus, Cleaned, Known;
  }

  /** The last mark of the run with a known status, and nothing but refused marks after it. */
  predicate LastKnown(marks: seq<Act>, k: nat)
    requires k < |marks|
  {
    && marks[k].Mark? && Known(marks[k].status)
    && forall j :: k < j < |marks| ==> marks[j].Mark? && !Known(marks[j].status)
  }

  /** A request has the status of the last mark that was accepted, as long as only marks follow it. */
  lemma {:induction false} StatusIsLast(r: Request, marks: seq<Act>, k: nat)
    requires k < |marks| && LastKnown(marks, k)
    ensures AfterMarks(r, marks).status == Cleaned(marks[k].status)
  {
    hide Marked, Known, Cleaned;
    var (n, m) := (|marks| - 1, marks[|marks| - 1]);
    var before := AfterMarks(r, marks[..n]);
    assert m.Mark? && AfterMarks(r, marks) == Marked(before, m.status, m.now);
    MarkExact(before, m.status, m.now);
    if k < n {
      assert forall j :: 0 <= j < n ==> marks[..n][j] == marks[j];
      StatusIsLast(r, marks[..n], k);
    }
  }

  /** A reply moves a pending request, and a confirmed payment also one that waits for it, to review; stamps stay. */
  lemma ReviewExact(r: Request, now: int)
    ensures Acted(r, Reply(now)) == if r.status == "pending" then r.(status := "under_review") else r
    ensures Acted(r, ConfirmPayment(now)) ==
      if r.status == "pending" || r.status == "payment_pending" then r.(status := "under_review") else r
  {
  }

  // ---------------------------------------------------------------- SMS credit

  const CREDITS := "sms_package_credits"
  const SMS_FIELDS := ["max_messages_monthly", "max_messages_daily", CREDITS]

  type Limits = map<string, int>

  /** One approval or trial of an SMS request: the package size, the posted limits and the desired ones. */
  datatype Application = Application(package: int, posted: Limits, desired: Limits)

  function Effective(a: Application): Limits {
    if a.posted == map[] then a.desired else a.posted
  }

  function Balance(limits: Limits): int {
    if CREDITS in limits then limits[CREDITS] else 0
  }

  function TopUp(limits: Limits, package: int): Limits {
    if package > 0 then limits[CREDITS := Balance(limits) + package] else limits
  }

  function Override(limits: Limits, given: Limits, field: string): Limits {
    if field in given then limits[field := given[field]] else limits
  }

  function Applied(limits: Limits, a: Application): Limits {
    var topped := TopUp(limits, a.package);
    var given := Effective(a);
    Override(Override(Override(topped, given, "max_messages_monthly"), given, "max_messages_daily"), given, CREDITS)
  }

  class SmsEntitlement {
    var limits: Limits

    constructor (limits: Limits)
      ensures this.limits == limits
    {
      this.limits := limits;
    }

    method ApplySmsRequest(a: Application)
      modifies this
      ensures limits == Applied(old(limits), a)
    {
      var given := if a.posted == map[] then a.desired else a.posted;
      var merged := limits;
      if a.package > 0 {
        merged := merged[CREDITS := Balance(merged) + a.package];
      }
      ghost var topped := merged;
      for i := 0 to |SMS_FIELDS|
        invariant i == 0 ==> merged == topped
        invariant i == 1 ==> merged == Override(topped, given, "max_messages_monthly")
        invariant i == 2 ==> merged == Override(Override(topped, given, "max_messages_monthly"), given, "max_messages_daily")
        invariant i == 3 ==>
          merged == Override(Override(Override(topped, given, "max_messages_monthly"), given, "max_messages_daily"), given, CREDITS)
      {
        if SMS_FIELDS[i] in given {
          merged := merged[SMS_FIELDS[i] := given[SMS_FIELDS[i]]];
        }
      }
      limits := merged;
    }
  }

  function AfterApplications(limits: Limits, run: seq<Application>): Limits {
    if run == [] then limits
    else Applied(AfterApplications(limits, run[..|run| - 1]), run[|run| - 1])
  }

  /** How many applications the last one that gave the field leaves behind it; all of them when none did. */
  function SinceGiven(run: seq<Application>, field: string): (n: nat)
    ensures n <= |run|
    ensures n < |run| ==> field in Effective(run[|run| - 1 - n])
    ensures forall i :: |run| - n <= i < |run| ==> field !in Effective(run[i])
  {
    if run == [] || field in Effective(run[|run| - 1]) then 0
    else 1 + SinceGiven(run[..|run| - 1], field)
  }

  function Packages(run: seq<Application>): int {
    if run == [] then 0
    else Packages(run[..|run| - 1]) + (if run[|run| - 1].package > 0 then run[|run| - 1].package else 0)
  }

  lemma OverrideOthers(limits: Limits, a: Application, field: string)
    ensures field !in SMS_FIELDS ==> (field in Applied(limits, a) <==> field in limits)
    ensures field !in SMS_FIELDS && field in limits ==> Applied(limits, a)[field] == limits[field]
    ensures field in SMS_FIELDS && field in Effective(a) ==>
      field in Applied(limits, a) && Applied(limits, a)[field] == Effective(a)[field]
    ensures field in SMS_FIELDS && field != CREDITS && field !in Effective(a) ==>
      (field in Applied(limits, a) <==> field in limits) && (field in limits ==> Applied(limits, a)[field] == limits[field])
    ensures CREDITS !in Effective(a) ==> Balance(Applied(limits, a)) == Balance(limits) + Packages([a])
  {
    assert [a][..0] == [];
    assert Packages([a]) == Packages([]) + (if a.package > 0 then a.package else 0);
  }

  lemma PackagesLast(run: seq<Application>, n: nat)
    requires 0 < n <= |run|
    ensures Packages(run[|run| - n..]) == Packages(run[..|run| - 1][|run| - n..]) + Packages([run[|run| - 1]])
  {
    var tail := run[|run| - n..];
    assert tail[..|tail| - 1] == run[..|run| - 1][|run| - n..];
    assert [run[|run| - 1]][..0] == [];
    assert Packages([]) == 0;
  }

  /**
   * Credit is conserved: after any run the balance is the last value given outright, or the starting one,
   * plus every positive package applied after it.
   */
  lemma {:induction false} BalanceConserved(limits: Limits, run: seq<Application>)
    ensures var n := SinceGiven(run, CREDITS);
      Balance(AfterApplications(limits, run)) ==
        (if n == |run| then Balance(limits) else Effective(run[|run| - 1 - n])[CREDITS]) + Packages(run[|run| - n..])
  {
    hide *;
    if run == [] {
      NoApplications(limits);
    } else {
      var (prefix, a) := (run[..|run| - 1], run[|run| - 1]);
      var n := SinceGiven(run, CREDITS);
      BalanceConserved(limits, prefix);
      AppliedBalance(AfterApplications(limits, prefix), a);
      RunStep(limits, run, CREDITS);
      if n > 0 {
        PackagesLast(run, n);
      } else {
        assert run[|run|..] == [];
      }
    }
  }

  lemma NoApplications(limits: Limits)
    ensures AfterApplications(limits, []) == limits && Packages([]) == 0 && forall f :: SinceGiven([], f) == 0
  {
  }

  /** What the last application of a run adds to the run before it. */
  lemma RunStep(limits: Limits, run: seq<Application>, field: string)
    requires run != []
    ensures var (prefix, a) := (run[..|run| - 1], run[|run| - 1]);
      && AfterApplications(limits, run) == Applied(AfterApplications(limits, prefix), a)
      && SinceGiven(run, field) == (if field in Effective(a) then 0 else 1 + SinceGiven(prefix, field))
      && SinceGiven(prefix, field) <= |prefix|
    ensures Packages([]) == 0
  {
    hide Applied, Effective;
  }

  lemma AppliedBalance(limits: Limits, a: Application)
    ensures Balance(Applied(limits, a)) ==
      if CREDITS in Effective(a) then Effective(a)[CREDITS] else Balance(limits) + Packages([a])
  {
    OverrideOthers(limits, a, CREDITS);
    assert SMS_FIELDS[2] == CREDITS;
    hide Applied, Effective;
  }

  /** The monthly and the daily cap are the last ones given, or what they were. */
  lemma {:induction false} CapsAreLastGiven(limits: Limits, run: seq<Application>, field: string)
    requires field == "max_messages_monthly" || field == "max_messages_daily"
    ensures var (n, after) := (SinceGiven(run, field), AfterApplications(limits, run));
      if n == |run| then (field in after <==> field in limits) && (field in limits ==> after[field] == limits[field])
      else field in after && after[field] == Effective(run[|run| - 1 - n])[field]
  {
    hide *;
    if run == [] {
      NoApplications(limits);
    } else {
      var (prefix, a) := (run[..|run| - 1], run[|run| - 1]);
      CapsAreLastGiven(limits, prefix, field);
      RunStep(limits, run, field);
      CapFields(field);
      OverrideOthers(AfterApplications(limits, prefix), a, field);
    }
  }

  lemma CapFields(field: string)
    requires field == "max_messages_monthly" || field == "max_messages_daily"
    ensures field in SMS_FIELDS && field != CREDITS
  {
    assert SMS_FIELDS[0] == "max_messages_monthly" && SMS_FIELDS[1] == "max_messages_daily";
  }

  /**
   * One application, field by field: a cap is the one given; credits are the ones given, or what was there plus
   * a positive package; whatever is posted takes the place of all that was desired; other limits stay.
   */
  lemma AppliedExact(limits: Limits, a: Application, field: string)
    ensures var given := if a.posted != map[] then a.posted else a.desired;
      var after := Applied(limits, a);
      var caps := {"max_messages_monthly", "max_messages_daily"};
      && (field in caps && field in given ==> field in after && after[field] == given[field])
      && (field == "sms_package_credits" && field in given ==> field in after && after[field] == given[field])
      && (field == "sms_package_credits" && field !in given && a.package > 0 ==>
            field in after && after[field] == (if field in limits then limits[field] else 0) + a.package)
      && ((field !in caps && field != "sms_package_credits") || (field !in given && (field in caps || a.package <= 0)) ==>
            (field in after <==> field in limits) && (field in after ==> after[field] == limits[field]))
  {
    assert SMS_FIELDS[0] == "max_messages_monthly" && SMS_FIELDS[1] == "max_messages_daily" && SMS_FIELDS[2] == CREDITS;
    OverrideOthers(limits, a, field);
  }
}
