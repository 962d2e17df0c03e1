/** The fixed-window rate limiter installed before every request (`_install_rate_limits`). */
module RateLimiter {
  import opened Counting
  import opened Options

  // ---------------------------------------------------------------- one limiter call

  datatype Bucket = Bucket(start: real, count: nat)

  type Buckets = map<string, Bucket>

  /** A call of `retry_after_for`; `now` is the monotonic clock it reads. */
  datatype Call = Call(key: string, max: int, window: int, now: real)

  /** The bucket the call counts into: the stored one, or a new one once the window has passed. */
  function Opened(buckets: Buckets, c: Call): Bucket {
    var b := if c.key in buckets then buckets[c.key] else Bucket(c.now, 0);
    if c.now - b.start >= c.window as real then Bucket(c.now, 0) else b
  }

  function Counted(buckets: Buckets, c: Call): Bucket {
    var b := Opened(buckets, c);
    Bucket(b.start, b.count + 1)
  }

  function Next(buckets: Buckets, c: Call): Buckets {
    buckets[c.key := Counted(buckets, c)]
  }

  predicate Admits(buckets: Buckets, c: Call) {
    Counted(buckets, c).count <= c.max
  }

  /** Python's `int(x)` on a float drops the fraction. */
  function Truncate(x: real): int {
    if x >= 0.0 then x.Floor else -(-x).Floor
  }

  function RetryAfter(buckets: Buckets, c: Call): Option<int> {
    if Admits(buckets, c) then None
    else
      var left := Truncate(c.window as real - (c.now - Counted(buckets, c).start));
      Some(if left > 1 then left else 1)
  }

  // ---------------------------------------------------------------- one request

  /** The knobs in force, as the settings resolver returns them. */
  datatype Knobs = Knobs(
    enabled: bool,
    loginMax: int, loginWindow: int,
    paymentMax: int, paymentWindow: int,
    checkMax: int, checkWindow: int,
    licenseMax: int, licenseWindow: int)

  /** The request's endpoint with what it is limited by, and the clock at its first and second limiter call. */
  datatype Request =
    | LoginPost(ip: string, now: real)
    | CreatePaymentRequest(ip: string, now: real)
    | LicenseCheck(ip: string, licenseKey: string, now: real, later: real)
    | OtherEndpoint(now: real)

  function OrElse(n: int, fallback: int): int {
    if n == 0 then fallback else n
  }

  /** The limiter calls one request makes; the license is only looked at when its address passed. */
  function Calls(k: Knobs, buckets: Buckets, r: Request): seq<Call> {
    if !k.enabled then []
    else
      match r
      case LoginPost(ip, now) => [Call("login:" + ip, k.loginMax, k.loginWindow, now)]
      case CreatePaymentRequest(ip, now) =>
        [Call("pay-req-create-ip:" + ip, OrElse(k.paymentMax, 20), OrElse(k.paymentWindow, 300), now)]
      case LicenseCheck(ip, license, now, later) =>
        var first := Call("license-check-ip:" + ip, k.checkMax, k.checkWindow, now);
        if license == "" || !Admits(buckets, first) then [first]
        else [first, Call("license-check-key:" + license, k.licenseMax, k.licenseWindow, later)]
      case OtherEndpoint(_) => []
  }

  function After(buckets: Buckets, cs: seq<Call>): Buckets {
    if cs == [] then buckets
    else Next(After(buckets, cs[..|cs| - 1]), cs[|cs| - 1])
  }

  /** The Retry-After a request is answered with: that of its last limiter call, if it was turned away. */
  function Answer(k: Knobs, buckets: Buckets, r: Request): Option<int> {
    var cs := Calls(k, buckets, r);
    if cs == [] then None else RetryAfter(After(buckets, cs[..|cs| - 1]), cs[|cs| - 1])
  }

  class Limiter {
    var buckets: Buckets

    constructor ()
      ensures buckets == map[]
    {
      buckets := map[];
    }

    method RetryAfterFor(key: string, max: int, window: int, now: real) returns (wait: Option<int>)
      modifies this
      ensures var c := Call(key, max, window, now);
        buckets == Next(old(buckets), c) && wait == RetryAfter(old(buckets), c)
      ensures wait.Some? ==> wait.value >= 1
    {
      var b := if key in buckets then buckets[key] else Bucket(now, 0);
      var start, count := b.start, b.count;
      if now - start >= window as real {
        start, count := now, 0;
      }
      count := count + 1;
      buckets := buckets[key := Bucket(start, count)];
      if count <= max {
        return None;
      }
      var left := Truncate(window as real - (now - start));
      wait := Some(if left > 1 then left else 1);
    }

    method CheckRateLimit(k: Knobs, r: Request) returns (wait: Option<int>)
      modifies this
      ensures buckets == After(old(buckets), Calls(k, old(buckets), r))
      ensures wait == Answer(k, old(buckets), r)
    {
      ghost var b := buckets;
      AfterShort(b);
      if !k.enabled {
        return None;
      }
      match r
      case LoginPost(ip, now) =>
        wait := RetryAfterFor("login:" + ip, k.loginMax, k.loginWindow, now);
      case CreatePaymentRequest(ip, now) =>
        wait := RetryAfterFor("pay-req-create-ip:" + ip, OrElse(k.paymentMax, 20), OrElse(k.paymentWindow, 300), now);
      case LicenseCheck(ip, license, now, later) =>
        wait := RetryAfterFor("license-check-ip:" + ip, k.checkMax, k.checkWindow, now);
        if wait.None? && license != "" {
          wait := RetryAfterFor("license-check-key:" + license, k.licenseMax, k.licenseWindow, later);
        }
      case OtherEndpoint(_) =>
        wait := None;
    }
  }

  lemma AfterShort(b: Buckets)
    ensures forall c :: After(b, [c]) == Next(b, c)
    ensures forall c, d :: After(b, [c, d]) == Next(Next(b, c), d)
  {
    forall c ensures After(b, [c]) == Next(b, c) {
      assert [c][..0] == [];
    }
    forall c, d ensures After(b, [c, d]) == Next(Next(b, c), d) {
      assert [c, d][..1] == [c];
      assert [c][..0] == [];
    }
  }

  // ---------------------------------------------------------------- keys do not interfere

  /** Calls on other keys leave a bucket as it was, however many there are. */
  lemma {:induction false} OtherKeysLeaveBucket(buckets: Buckets, cs: seq<Call>, key: string)
    requires forall c :: c in cs ==> c.key != key
    ensures key in After(buckets, cs) <==> key in buckets
    ensures key in buckets ==> After(buckets, cs)[key] == buckets[key]
  {
    if cs != [] {
      OtherKeysLeaveBucket(buckets, cs[..|cs| - 1], key);
    }
  }

  /** No address and no license can make two of the four limiters share a bucket. */
  lemma PrefixesDisjoint(a: string, b: string)
    ensures "login:" + a != "pay-req-create-ip:" + b
    ensures "login:" + a != "license-check-ip:" + b
    ensures "login:" + a != "license-check-key:" + b
    ensures "pay-req-create-ip:" + a != "license-check-ip:" + b
    ensures "pay-req-create-ip:" + a != "license-check-key:" + b
    ensures "license-check-ip:" + a != "license-check-key:" + b
  {
    assert ("login:" + a)[1] == 'o' && ("pay-req-create-ip:" + b)[1] == 'a' && ("pay-req-create-ip:" + a)[1] == 'a';
    assert ("license-check-ip:" + b)[1] == 'i' && ("license-check-key:" + b)[1] == 'i';
    assert ("license-check-ip:" + a)[14] == 'i' && ("license-check-key:" + b)[14] == 'k';
  }

  // ---------------------------------------------------------------- recovery

  /** Retry-After lies between one second and the window (section 10.2.3 of RFC 9110 asks for whole seconds). */
  lemma RetryAfterRange(buckets: Buckets, c: Call)
    requires !Admits(buckets, c)
    requires c.key in buckets ==> buckets[c.key].start <= c.now
    ensures var wait := RetryAfter(buckets, c).value;
      1 <= wait && (wait <= c.window || (wait == 1 && c.window <= 1))
  {
  }

  /**
   * A rejected call leaves the start of its bucket alone if and only if the window is still open, or would
   * start again at the same instant. A second window can only be opened by a rejected call where the maximum
   * is zero or less.
   */
  lemma RejectionKeepsStartIff(buckets: Buckets, c: Call)
    requires !Admits(buckets, c) && c.key in buckets
    ensures Next(buckets, c)[c.key].start == buckets[c.key].start <==>
      c.now < buckets[c.key].start + c.window as real || c.now == buckets[c.key].start
    ensures c.now >= buckets[c.key].start + c.window as real ==> c.max <= 0
  {
  }

  /** With a positive maximum a rejected call finds its bucket open and leaves its start alone. */
  lemma RejectionKeepsStart(buckets: Buckets, c: Call)
    requires !Admits(buckets, c) && c.max >= 1
    ensures c.key in buckets && Next(buckets, c)[c.key].start == buckets[c.key].start
    ensures c.now < buckets[c.key].start + c.window as real
  {
    if c.key in buckets {
      RejectionKeepsStartIff(buckets, c);
    }
  }

  /** Where the condition fails: with a maximum of zero a rejected call opens a new window. */
  lemma RejectionCanMoveStart()
    ensures var b: Buckets := map["login:x" := Bucket(0.0, 1)];
      var c := Call("login:x", 0, 60, 60.0);
      !Admits(b, c) && Next(b, c)["login:x"].start == 60.0
  {
  }

  /**
   * After a rejection, and with no other request for the key, the next call is admitted exactly when it
   * comes no earlier than the end of the window.
   */
  lemma AdmittedAgainIff(buckets: Buckets, c: Call, others: seq<Call>, now: real)
    requires !Admits(buckets, c) && c.max >= 1 && c.now <= now
    requires forall d :: d in others ==> d.key != c.key
    ensures Admits(After(Next(buckets, c), others), c.(now := now)) <==>
      now >= buckets[c.key].start + c.window as real
  {
    OtherKeysLeaveBucket(Next(buckets, c), others, c.key);
  }

  /** One second more than Retry-After always suffices. */
  lemma RetryAfterPlusOneSuffices(buckets: Buckets, c: Call, others: seq<Call>, now: real)
    requires !Admits(buckets, c) && c.max >= 1
    requires forall d :: d in others ==> d.key != c.key
    requires now >= c.now + (RetryAfter(buckets, c).value + 1) as real
    ensures Admits(After(Next(buckets, c), others), c.(now := now))
  {
    AdmittedAgainIff(buckets, c, others, now);
  }

  /** Waiting Retry-After itself suffices exactly when the rest of the window is whole, or under a second. */
  lemma RetryAfterSufficesIff(buckets: Buckets, c: Call, others: seq<Call>)
    requires !Admits(buckets, c) && c.max >= 1
    requires forall d :: d in others ==> d.key != c.key
    ensures var left := buckets[c.key].start + c.window as real - c.now;
      var again := c.(now := c.now + RetryAfter(buckets, c).value as real);
      Admits(After(Next(buckets, c), others), again) <==> left <= 1.0 || left == left.Floor as real
  {
    AdmittedAgainIff(buckets, c, others, c.now + RetryAfter(buckets, c).value as real);
  }

  // ---------------------------------------------------------------- whole runs

  predicate ClockForward(cs: seq<Call>) {
    forall i, j :: 0 <= i < j < |cs| ==> cs[i].now <= cs[j].now
  }

  /** An admitted call of some key: when it came, and where the window it was counted in starts. */
  datatype Hit = Hit(time: real, start: real)

  function Hits(cs: seq<Call>, key: string): seq<Hit> {
    if cs == [] then []
    else
      var (before, c) := (After(map[], cs[..|cs| - 1]), cs[|cs| - 1]);
      Hits(cs[..|cs| - 1], key) +
      (if c.key == key && Admits(before, c) then [Hit(c.now, Opened(before, c).start)] else [])
  }

  /** Every call on the key uses these two knobs. */
  predicate FixedKnobs(cs: seq<Call>, key: string, max: int, window: int) {
    forall c :: c in cs && c.key == key ==> c.max == max && c.window == window
  }

  ghost predicate InOrder(hits: seq<Hit>) {
    forall i, j :: 0 <= i < j < |hits| ==> hits[i].time <= hits[j].time
  }

  ghost predicate InTheirWindows(hits: seq<Hit>, w: real) {
    forall i :: 0 <= i < |hits| ==> hits[i].start <= hits[i].time < hits[i].start + w
  }

  /** Hits `max` places apart belong to windows at least `w` apart. */
  ghost predicate FewPerWindow(hits: seq<Hit>, max: nat, w: real) {
    forall i, j :: 0 <= i && i + max == j < |hits| ==> hits[i].start + w <= hits[j].start
  }

  /** A hit that does not sit at the start of its window follows another of the same window. */
  ghost predicate OpenedByAHit(hits: seq<Hit>) {
    forall i :: 0 <= i < |hits| && hits[i].time > hits[i].start ==> i > 0 && hits[i - 1].start == hits[i].start
  }

  /** How the hits of one key lie: in order, each in its window, and at most `max` to a window. */
  ghost predicate WellSpaced(hits: seq<Hit>, max: nat, w: real) {
    InOrder(hits) && InTheirWindows(hits, w) && FewPerWindow(hits, max, w) && OpenedByAHit(hits)
  }

  /** The open bucket counts the last hits; every earlier one belongs to a window that had ended. */
  ghost predicate Tracks(hits: seq<Hit>, b: Bucket, max: nat, w: real) {
    var m := if b.count < max then b.count else max;
    && b.count >= 1 && m <= |hits|
    && (forall i :: |hits| - m <= i < |hits| ==> hits[i].start == b.start)
    && (forall i :: 0 <= i < |hits| - m ==> hits[i].start + w <= b.start)
  }

  /** What is known of a key after a run: nothing yet, or hits tracked by its bucket, none later than `now`. */
  ghost predicate Sound(hits: seq<Hit>, buckets: Buckets, key: string, max: nat, w: real, now: real) {
    && WellSpaced(hits, max, w)
    && (forall i :: 0 <= i < |hits| ==> hits[i].time <= now)
    && (if key in buckets then Tracks(hits, buckets[key], max, w) && buckets[key].start <= now else hits == [])
  }

  /** The bucket an admitted call opens counts exactly the last hits. */
  lemma OpenedTracks(hits: seq<Hit>, buckets: Buckets, c: Call, now: real)
    requires c.max >= 1 && c.window >= 1 && now <= c.now
    requires Sound(hits, buckets, c.key, c.max, c.window as real, now)
    requires Admits(buckets, c)
    ensures var b := Opened(buckets, c);
      && b.count < c.max && b.count <= |hits| && b.start <= c.now < b.start + c.window as real
      && (b.count == 0 ==> b.start == c.now)
      && (forall i :: |hits| - b.count <= i < |hits| ==> hits[i].start == b.start)
      && (forall i :: 0 <= i < |hits| - b.count ==> hits[i].start + c.window as real <= b.start)
  {
  }

  lemma AdmitKeepsSound(hits: seq<Hit>, buckets: Buckets, c: Call, now: real)
    requires c.max >= 1 && c.window >= 1 && now <= c.now
    requires Sound(hits, buckets, c.key, c.max, c.window as real, now)
    requires Admits(buckets, c)
    ensures Sound(hits + [Hit(c.now, Opened(buckets, c).start)], Next(buckets, c), c.key, c.max, c.window as real, c.now)
  {
    var b := Opened(buckets, c);
    var hits' := hits + [Hit(c.now, b.start)];
    OpenedTracks(hits, buckets, c, now);
    assert Next(buckets, c)[c.key] == Bucket(b.start, b.count + 1);
    hide Opened, Admits, Next;
    ExtendWellSpaced(hits, b, c.max, c.window as real, c.now);
    assert Tracks(hits', Bucket(b.start, b.count + 1), c.max, c.window as real) by {
      hide WellSpaced;
    }
  }

  lemma ExtendWellSpaced(hits: seq<Hit>, b: Bucket, max: nat, w: real, now: real)
    requires WellSpaced(hits, max, w) && forall i :: 0 <= i < |hits| ==> hits[i].time <= now
    requires b.count < max && b.count <= |hits| && b.start <= now < b.start + w
    requires b.count == 0 ==> b.start == now
    requires forall i :: |hits| - b.count <= i < |hits| ==> hits[i].start == b.start
    requires forall i :: 0 <= i < |hits| - b.count ==> hits[i].start + w <= b.start
    ensures WellSpaced(hits + [Hit(now, b.start)], max, w)
  {
    ExtendFewPerWindow(hits, b, max, w, now);
    hide FewPerWindow;
    assert InOrder(hits + [Hit(now, b.start)]);
    assert OpenedByAHit(hits + [Hit(now, b.start)]);
  }

  lemma ExtendFewPerWindow(hits: seq<Hit>, b: Bucket, max: nat, w: real, now: real)
    requires FewPerWindow(hits, max, w) && b.count < max && b.count <= |hits|
    requires forall i :: 0 <= i < |hits| - b.count ==> hits[i].start + w <= b.start
    ensures FewPerWindow(hits + [Hit(now, b.start)], max, w)
  {
  }

  lemma RejectKeepsSound(hits: seq<Hit>, buckets: Buckets, c: Call, now: real)
    requires c.max >= 1 && c.window >= 1 && now <= c.now
    requires Sound(hits, buckets, c.key, c.max, c.window as real, now)
    requires !Admits(buckets, c)
    ensures Sound(hits, Next(buckets, c), c.key, c.max, c.window as real, c.now)
  {
  }

  lemma {:induction false} RunSound(cs: seq<Call>, key: string, max: int, window: int)
    requires ClockForward(cs) && FixedKnobs(cs, key, max, window) && max >= 1 && window >= 1
    ensures Sound(Hits(cs, key), After(map[], cs), key, max, window as real, if cs == [] then 0.0 else cs[|cs| - 1].now)
  {
    if cs != [] {
      hide WellSpaced, Tracks, Next, Admits;
      var (prefix, c) := (cs[..|cs| - 1], cs[|cs| - 1]);
      RunSound(prefix, key, max, window);
      var (hits, buckets) := (Hits(prefix, key), After(map[], prefix));
      var now := if prefix == [] then c.now else prefix[|prefix| - 1].now;
      assert Sound(hits, buckets, key, max, window as real, now);
      if c.key != key {
        assert hits + [] == hits;
        OtherKeysLeaveBucket(buckets, [c], key);
        AfterShort(buckets);
      } else if Admits(buckets, c) {
        AdmitKeepsSound(hits, buckets, c, now);
      } else {
        assert hits + [] == hits;
        RejectKeepsSound(hits, buckets, c, now);
      }
    }
  }

  /** The first hit of a window sits at its start, so 2*max hits in a row span at least a window. */
  lemma HitsSpan(hits: seq<Hit>, max: nat, w: real, i: nat, j: nat)
    requires WellSpaced(hits, max, w) && max >= 1
    requires i + 2 * max - 1 <= j < |hits|
    ensures hits[j].time >= hits[i].time + w
  {
    var k := i + 2 * max - 1;
    assert hits[k].time <= hits[j].time;
    if hits[i].time > hits[i].start {
      assert hits[i - 1].start + w <= hits[i - 1 + max].start;
      assert hits[i - 1 + max].start + w <= hits[k].start;
    } else {
      assert hits[i].start + w <= hits[i + max].start <= hits[i + max].time <= hits[k].time;
    }
  }

  function InWindow(from: real, window: int): Hit -> bool {
    (h: Hit) => from <= h.time < from + window as real
  }

  /** The most calls any window-long stretch can admit. */
  function Ceiling(max: int): nat {
    if max >= 1 then 2 * max - 1 else 0
  }

  /**
   * Sliding bound. With fixed knobs, every half-open stretch of one window admits at most 2*max - 1 calls
   * of a key: one less than two full windows, because a window opens with its first call.
   */
  lemma SlidingBound(cs: seq<Call>, key: string, max: int, window: int, from: real)
    requires ClockForward(cs) && FixedKnobs(cs, key, max, window)
    ensures Count(Hits(cs, key), InWindow(from, window)) <= Ceiling(max)
  {
    var hits := Hits(cs, key);
    if max < 1 {
      NothingAdmitted(cs, key, max, window);
    } else if window < 1 {
      CountNone(hits, InWindow(from, window));
    } else {
      RunSound(cs, key, max, window);
      forall i, j | 0 <= i < j < |hits| && InWindow(from, window)(hits[i]) && InWindow(from, window)(hits[j])
        ensures j - i < Ceiling(max)
      {
        if j - i >= Ceiling(max) {
          HitsSpan(hits, max, window as real, i, j);
        }
      }
      CountSpread(hits, InWindow(from, window), Ceiling(max));
    }
  }

  lemma {:induction false} NothingAdmitted(cs: seq<Call>, key: string, max: int, window: int)
    requires FixedKnobs(cs, key, max, window) && max < 1
    ensures Hits(cs, key) == []
  {
    if cs != [] {
      NothingAdmitted(cs[..|cs| - 1], key, max, window);
      assert cs[|cs| - 1] in cs;
    }
  }

  // ---------------------------------------------------------------- the bound is attained

  /** `cs` followed by `n` calls at one moment. */
  function Burst(cs: seq<Call>, c: Call, n: nat): seq<Call> {
    if n == 0 then cs else Burst(cs, c, n - 1) + [c]
  }

  lemma HitsStep(cs: seq<Call>, c: Call)
    ensures After(map[], cs + [c]) == Next(After(map[], cs), c)
    ensures Hits(cs + [c], c.key) ==
      Hits(cs, c.key) + (if Admits(After(map[], cs), c) then [Hit(c.now, Opened(After(map[], cs), c).start)] else [])
  {
    hide Next, Admits, Opened;
    assert (cs + [c])[..|cs|] == cs;
  }

  lemma {:induction false} BurstAdmitted(cs: seq<Call>, c: Call, n: nat, b: Bucket)
    requires b == Opened(After(map[], cs), c)
    requires b.start <= c.now < b.start + c.window as real && b.count + n <= c.max
    ensures Opened(After(map[], Burst(cs, c, n)), c) == Bucket(b.start, b.count + n)
    ensures n >= 1 ==> var buckets := After(map[], Burst(cs, c, n));
      c.key in buckets && buckets[c.key] == Bucket(b.start, b.count + n)
    ensures Hits(Burst(cs, c, n), c.key) == Hits(cs, c.key) + seq(n, _ => Hit(c.now, b.start))
  {
    hide Hits, After;
    if n >= 1 {
      BurstAdmitted(cs, c, n - 1, b);
      HitsStep(Burst(cs, c, n - 1), c);
    }
  }

  lemma {:induction false} BurstShape(cs: seq<Call>, c: Call, n: nat)
    requires forall d :: d in cs ==> d.now <= c.now
    requires ClockForward(cs) && FixedKnobs(cs, c.key, c.max, c.window)
    ensures ClockForward(Burst(cs, c, n)) && FixedKnobs(Burst(cs, c, n), c.key, c.max, c.window)
    ensures forall d :: d in Burst(cs, c, n) ==> d.now <= c.now
  {
    if n >= 1 {
      BurstShape(cs, c, n - 1);
    }
  }

  /**
   * SlidingBound is sharp: one call at 0, max - 1 calls half a second before the window ends and max calls
   * when it ends are all admitted, and the last 2*max - 1 of them lie within one window.
   */
  lemma CeilingAttained(key: string, max: nat, window: nat) returns (cs: seq<Call>, from: real)
    requires max >= 1 && window >= 1
    ensures ClockForward(cs) && FixedKnobs(cs, key, max, window)
    ensures Count(Hits(cs, key), InWindow(from, window)) == Ceiling(max)
  {
    var w := window as real;
    var (c0, c1, c2) := (Call(key, max, window, 0.0), Call(key, max, window, w - 0.5), Call(key, max, window, w));
    hide Hits, After, Count, Opened, WellSpaced;
    var cs0 := Burst([], c0, 1);
    var cs1 := Burst(cs0, c1, max - 1);
    cs := Burst(cs1, c2, max);
    from := w - 0.5;
    BurstShape([], c0, 1);
    BurstShape(cs0, c1, max - 1);
    BurstShape(cs1, c2, max);
    ThreeBursts(c0, c1, c2);
    SlidingBound(cs, key, max, window, from);
    CountAtLeast(Hits(cs, key), InWindow(from, window), 1, 2 * max);
  }

  lemma ThreeBursts(c0: Call, c1: Call, c2: Call)
    requires c0.max >= 1 && c0.window >= 1
    requires c0.now == 0.0 && c1 == c0.(now := c0.window as real - 0.5) && c2 == c0.(now := c0.window as real)
    ensures Hits(Burst(Burst(Burst([], c0, 1), c1, c0.max - 1), c2, c0.max), c0.key) ==
      [Hit(0.0, 0.0)] + seq(c0.max - 1, _ => Hit(c1.now, 0.0)) + seq(c0.max, _ => Hit(c2.now, c2.now))
  {
    hide Hits, Burst, After;
    assert After(map[], []) == map[] && Hits([], c0.key) == [] by {
      EmptyRun(c0.key);
    }
    BurstAdmitted([], c0, 1, Bucket(0.0, 0));
    var cs0 := Burst([], c0, 1);
    BurstAdmitted(cs0, c1, c0.max - 1, Bucket(0.0, 1));
    var cs1 := Burst(cs0, c1, c0.max - 1);
    assert c0.max == 1 ==> cs1 == cs0 by {
      EmptyBurst(cs0, c1);
    }
    BurstAdmitted(cs1, c2, c0.max, Bucket(c2.now, 0));
    assert [] + seq(1, _ => Hit(0.0, 0.0)) == [Hit(0.0, 0.0)];
  }

  lemma EmptyRun(key: string)
    ensures After(map[], []) == map[] && Hits([], key) == []
  {
  }

  lemma EmptyBurst(cs: seq<Call>, c: Call)
    ensures Burst(cs, c, 0) == cs
  {
  }

  // ---------------------------------------------------------------- runs of requests

  /** All limiter calls a run of requests makes, under knobs that stay as they are. */
  function RunCalls(k: Knobs, rs: seq<Request>): seq<Call> {
    if rs == [] then []
    else
      var before := RunCalls(k, rs[..|rs| - 1]);
      before + Calls(k, After(map[], before), rs[|rs| - 1])
  }

  function LastTick(r: Request): real {
    if r.LicenseCheck? then r.later else r.now
  }

  predicate RequestsForward(rs: seq<Request>) {
    && (forall i :: 0 <= i < |rs| ==> rs[i].now <= LastTick(rs[i]))
    && (forall i, j :: 0 <= i < j < |rs| ==> LastTick(rs[i]) <= rs[j].now)
  }

  predicate Between(cs: seq<Call>, first: real, last: real) {
    ClockForward(cs) && forall c :: c in cs ==> first <= c.now <= last
  }

  lemma CallsBetween(k: Knobs, buckets: Buckets, r: Request)
    requires r.now <= LastTick(r)
    ensures Between(Calls(k, buckets, r), r.now, LastTick(r))
  {
    hide Admits;
  }

  lemma {:induction false} RunCallsForward(k: Knobs, rs: seq<Request>)
    requires RequestsForward(rs)
    ensures ClockForward(RunCalls(k, rs))
    ensures forall c :: c in RunCalls(k, rs) ==> rs != [] && c.now <= LastTick(rs[|rs| - 1])
  {
    if rs != [] {
      hide After, Calls, LastTick;
      var (before, r) := (rs[..|rs| - 1], rs[|rs| - 1]);
      RunCallsForward(k, before);
      var cs := RunCalls(k, before);
      var last := Calls(k, After(map[], cs), r);
      CallsBetween(k, After(map[], cs), r);
      assert forall c :: c in cs ==> c.now <= r.now;
      ForwardConcat(cs, last);
      assert RunCalls(k, rs) == cs + last;
    }
  }

  lemma ForwardConcat(a: seq<Call>, b: seq<Call>)
    requires ClockForward(a) && ClockForward(b)
    requires forall c, d :: c in a && d in b ==> c.now <= d.now
    ensures ClockForward(a + b)
  {
    forall i, j | 0 <= i < j < |a + b| ensures (a + b)[i].now <= (a + b)[j].now {
      if i < |a| <= j {
        assert a[i] in a && b[j - |a|] in b;
      }
    }
  }

  /** Which knobs a key is limited by. */
  ghost predicate Uses(k: Knobs, key: string, max: int, window: int) {
    || (max == k.loginMax && window == k.loginWindow && exists ip :: key == "login:" + ip)
    || (max == OrElse(k.paymentMax, 20) && window == OrElse(k.paymentWindow, 300) &&
        exists ip :: key == "pay-req-create-ip:" + ip)
    || (max == k.checkMax && window == k.checkWindow && exists ip :: key == "license-check-ip:" + ip)
    || (max == k.licenseMax && window == k.licenseWindow && exists license :: key == "license-check-key:" + license)
  }

  /** The letters at two places tell the four kinds of key apart. */
  lemma KindOfKey(k: Knobs, key: string, max: int, window: int)
    requires Uses(k, key, max, window)
    ensures |key| > 1 && (key[1] == 'a' || key[1] == 'o' || (key[1] == 'i' && |key| > 14))
    ensures key[1] == 'o' ==> max == k.loginMax && window == k.loginWindow
    ensures key[1] == 'a' ==> max == OrElse(k.paymentMax, 20) && window == OrElse(k.paymentWindow, 300)
    ensures key[1] == 'i' && key[14] == 'i' ==> max == k.checkMax && window == k.checkWindow
    ensures key[1] == 'i' && key[14] != 'i' ==> max == k.licenseMax && window == k.licenseWindow
  {
    hide OrElse;
  }

  lemma UsesUnique(k: Knobs, key: string, max: int, window: int, max': int, window': int)
    requires Uses(k, key, max, window) && Uses(k, key, max', window')
    ensures max == max' && window == window'
  {
    hide *;
    KindOfKey(k, key, max, window);
    KindOfKey(k, key, max', window');
  }

  lemma {:induction false} RunCallsUse(k: Knobs, rs: seq<Request>)
    ensures forall c :: c in RunCalls(k, rs) ==> Uses(k, c.key, c.max, c.window)
  {
    if rs != [] {
      RunCallsUse(k, rs[..|rs| - 1]);
      var b := After(map[], RunCalls(k, rs[..|rs| - 1]));
      hide After, Admits;
      assert forall c :: c in Calls(k, b, rs[|rs| - 1]) ==> Uses(k, c.key, c.max, c.window);
    }
  }

  /** The sliding bound for whole requests: it holds for each limiter, whatever the other endpoints see. */
  lemma RequestSlidingBound(k: Knobs, rs: seq<Request>, key: string, max: int, window: int, from: real)
    requires RequestsForward(rs) && Uses(k, key, max, window)
    ensures Count(Hits(RunCalls(k, rs), key), InWindow(from, window)) <= Ceiling(max)
  {
    var cs := RunCalls(k, rs);
    RunCallsForward(k, rs);
    RunCallsUse(k, rs);
    forall c | c in cs && c.key == key ensures c.max == max && c.window == window {
      UsesUnique(k, key, max, window, c.max, c.window);
    }
    SlidingBound(cs, key, max, window, from);
  }

  // ---------------------------------------------------------------- what a request does, bucket by bucket

  /** The bucket of a key lets nothing more through at this moment. */
  predicate Full(buckets: Buckets, key: string, max: int, window: int, now: real) {
    max < 1 || (key in buckets && now < buckets[key].start + window as real && buckets[key].count >= max)
  }

  /** The bucket of a key with one more request in it: the open one, or a new one that starts now. */
  function Bumped(buckets: Buckets, key: string, window: int, now: real): Bucket {
    if key in buckets && now < buckets[key].start + window as real then Bucket(buckets[key].start, buckets[key].count + 1)
    else Bucket(now, 1)
  }

  lemma CallBumps(buckets: Buckets, c: Call)
    ensures Next(buckets, c) == buckets[c.key := Bumped(buckets, c.key, c.window, c.now)]
    ensures Admits(buckets, c) <==> !Full(buckets, c.key, c.max, c.window, c.now)
  {
  }

  /** The answer to a run of one or two calls, and the buckets after it, call by call. */
  lemma AnswerOfCalls(k: Knobs, buckets: Buckets, r: Request)
    ensures var cs := Calls(k, buckets, r);
      && |cs| <= 2
      && (|cs| == 0 ==> After(buckets, cs) == buckets && Answer(k, buckets, r) == None)
      && (|cs| == 1 ==> After(buckets, cs) == Next(buckets, cs[0]) && (Answer(k, buckets, r) == None <==> Admits(buckets, cs[0])))
      && (|cs| == 2 ==> After(buckets, cs) == Next(Next(buckets, cs[0]), cs[1]))
      && (|cs| == 2 ==> (Answer(k, buckets, r) == None <==> Admits(Next(buckets, cs[0]), cs[1])))
  {
    var cs := Calls(k, buckets, r);
    hide Admits, Next;
    AfterShort(buckets);
    if |cs| == 1 {
      assert cs == [cs[0]] && cs[..0] == [];
    } else if |cs| == 2 {
      assert cs == [cs[0], cs[1]] && cs[..1] == [cs[0]];
    }
  }

  /**
   * A request is let through if and only if limits are off or no bucket its endpoint owes is full: one for
   * each address at the login, at the creation of payment requests and at the license check, and one for each
   * license key that is given.
   */
  lemma LetThroughIff(k: Knobs, buckets: Buckets, r: Request)
    ensures !k.enabled || r.OtherEndpoint? ==> Answer(k, buckets, r) == None
    ensures k.enabled && r.LoginPost? ==>
      (Answer(k, buckets, r) == None <==> !Full(buckets, "login:" + r.ip, k.loginMax, k.loginWindow, r.now))
    ensures k.enabled && r.CreatePaymentRequest? ==>
      var (max, window) := (if k.paymentMax == 0 then 20 else k.paymentMax, if k.paymentWindow == 0 then 300 else k.paymentWindow);
      (Answer(k, buckets, r) == None <==> !Full(buckets, "pay-req-create-ip:" + r.ip, max, window, r.now))
    ensures k.enabled && r.LicenseCheck? ==>
      (Answer(k, buckets, r) == None <==>
        && !Full(buckets, "license-check-ip:" + r.ip, k.checkMax, k.checkWindow, r.now)
        && (r.licenseKey != "" ==> !Full(buckets, "license-check-key:" + r.licenseKey, k.licenseMax, k.licenseWindow, r.later)))
  {
    AnswerOfCalls(k, buckets, r);
    CallsAre(k, buckets, r);
    hide Answer, Calls, After, Full;
    forall c ensures Admits(buckets, c) <==> !Full(buckets, c.key, c.max, c.window, c.now) {
      CallBumps(buckets, c);
    }
    if r.LicenseCheck? {
      CheckCalls(k, buckets, r);
    }
    hide Admits, Next;
  }

  /** The limiter calls of each endpoint, written out. */
  lemma CallsAre(k: Knobs, buckets: Buckets, r: Request)
    ensures !k.enabled || r.OtherEndpoint? ==> Calls(k, buckets, r) == []
    ensures k.enabled && r.LoginPost? ==>
      Calls(k, buckets, r) == [Call("login:" + r.ip, k.loginMax, k.loginWindow, r.now)]
    ensures k.enabled && r.CreatePaymentRequest? ==>
      var (max, window) := (if k.paymentMax == 0 then 20 else k.paymentMax, if k.paymentWindow == 0 then 300 else k.paymentWindow);
      Calls(k, buckets, r) == [Call("pay-req-create-ip:" + r.ip, max, window, r.now)]
    ensures k.enabled && r.LicenseCheck? ==>
      var first := Call("license-check-ip:" + r.ip, k.checkMax, k.checkWindow, r.now);
      Calls(k, buckets, r) == if r.licenseKey == "" || !Admits(buckets, first) then [first]
        else [first, Call("license-check-key:" + r.licenseKey, k.licenseMax, k.licenseWindow, r.later)]
  {
    hide Admits;
  }

  /** The two calls of a license check are on different keys, so the first leaves the second's bucket alone. */
  lemma CheckCalls(k: Knobs, buckets: Buckets, r: Request)
    requires r.LicenseCheck?
    ensures var c := Call("license-check-ip:" + r.ip, k.checkMax, k.checkWindow, r.now);
      var d := Call("license-check-key:" + r.licenseKey, k.licenseMax, k.licenseWindow, r.later);
      && (Admits(Next(buckets, c), d) <==> !Full(buckets, d.key, d.max, d.window, d.now))
      && Bumped(Next(buckets, c), d.key, d.window, d.now) == Bumped(buckets, d.key, d.window, d.now)
      && c.key != d.key
  {
    PrefixesDisjoint(r.ip, r.licenseKey);
    var c := Call("license-check-ip:" + r.ip, k.checkMax, k.checkWindow, r.now);
    var d := Call("license-check-key:" + r.licenseKey, k.licenseMax, k.licenseWindow, r.later);
    CallBumps(Next(buckets, c), d);
    CallBumps(buckets, c);
    hide Admits;
  }

  /**
   * The buckets after a request: with limits off, or at another endpoint, nothing moves; otherwise exactly the
   * owed buckets count one more, that of the license key only when the address was not turned away.
   */
  lemma RequestBumps(k: Knobs, buckets: Buckets, r: Request)
    ensures !k.enabled || r.OtherEndpoint? ==> After(buckets, Calls(k, buckets, r)) == buckets
    ensures k.enabled && r.LoginPost? ==>
      After(buckets, Calls(k, buckets, r)) ==
        buckets["login:" + r.ip := Bumped(buckets, "login:" + r.ip, k.loginWindow, r.now)]
    ensures k.enabled && r.CreatePaymentRequest? ==>
      var window := if k.paymentWindow == 0 then 300 else k.paymentWindow;
      After(buckets, Calls(k, buckets, r)) ==
        buckets["pay-req-create-ip:" + r.ip := Bumped(buckets, "pay-req-create-ip:" + r.ip, window, r.now)]
    ensures k.enabled && r.LicenseCheck? ==>
      var (ipKey, licenseKey) := ("license-check-ip:" + r.ip, "license-check-key:" + r.licenseKey);
      var counted := buckets[ipKey := Bumped(buckets, ipKey, k.checkWindow, r.now)];
      After(buckets, Calls(k, buckets, r)) ==
        if r.licenseKey == "" || Full(buckets, ipKey, k.checkMax, k.checkWindow, r.now) then counted
        else counted[licenseKey := Bumped(buckets, licenseKey, k.licenseWindow, r.later)]
  {
    AnswerOfCalls(k, buckets, r);
    CallsAre(k, buckets, r);
    hide Answer, Calls, After, Full, Bumped;
    forall c
      ensures Next(buckets, c) == buckets[c.key := Bumped(buckets, c.key, c.window, c.now)]
      ensures Admits(buckets, c) <==> !Full(buckets, c.key, c.max, c.window, c.now)
    {
      CallBumps(buckets, c);
    }
    if r.LicenseCheck? {
      CheckCalls(k, buckets, r);
      var c := Call("license-check-ip:" + r.ip, k.checkMax, k.checkWindow, r.now);
      CallBumps(Next(buckets, c), Call("license-check-key:" + r.licenseKey, k.licenseMax, k.licenseWindow, r.later));
    }
    hide Admits, Next;
  }

  // ---------------------------------------------------------------- how many requests are let through

  /** The requests of a run that are let through, by their own answers. */
  function LetThrough(k: Knobs, rs: seq<Request>): seq<Request> {
    if rs == [] then []
    else
      var (before, r) := (rs[..|rs| - 1], rs[|rs| - 1]);
      LetThrough(k, before) + (if Answer(k, After(map[], RunCalls(k, before)), r) == None then [r] else [])
  }

  /** The hits a few calls add for a key, on given buckets. */
  function NewHits(buckets: Buckets, cs: seq<Call>, key: string): seq<Hit>
    decreases |cs|
  {
    if cs == [] then []
    else
      (if cs[0].key == key && Admits(buckets, cs[0]) then [Hit(cs[0].now, Opened(buckets, cs[0]).start)] else []) +
      NewHits(Next(buckets, cs[0]), cs[1..], key)
  }

  lemma HitsNext(cs: seq<Call>, c: Call, key: string)
    ensures After(map[], cs + [c]) == Next(After(map[], cs), c)
    ensures Hits(cs + [c], key) == Hits(cs, key) +
      (if c.key == key && Admits(After(map[], cs), c) then [Hit(c.now, Opened(After(map[], cs), c).start)] else [])
  {
    hide Next, Admits, Opened;
    assert (cs + [c])[..|cs|] == cs;
  }

  lemma {:induction false} HitsConcat(cs: seq<Call>, more: seq<Call>, key: string)
    ensures Hits(cs + more, key) == Hits(cs, key) + NewHits(After(map[], cs), more, key)
    decreases |more|
  {
    hide Hits, After, Next, Admits, Opened;
    if more == [] {
      assert cs + more == cs;
    } else {
      HitsNext(cs, more[0], key);
      HitsConcat(cs + [more[0]], more[1..], key);
      assert cs + more == cs + [more[0]] + more[1..];
    }
  }

  /** Whenever such a request is let through, it leaves a hit of the key within the window. */
  ghost predicate LeavesHits(k: Knobs, p: Request -> bool, key: string, inside: Hit -> bool) {
    forall buckets, r :: p(r) && Answer(k, buckets, r) == None ==>
      Count(NewHits(buckets, Calls(k, buckets, r), key), inside) >= 1
  }

  lemma {:induction false} RequestsUnderHits(k: Knobs, rs: seq<Request>, p: Request -> bool, key: string, inside: Hit -> bool)
    requires LeavesHits(k, p, key, inside)
    ensures Count(LetThrough(k, rs), p) <= Count(Hits(RunCalls(k, rs), key), inside)
  {
    hide Answer, Calls, After, Hits, NewHits, Count;
    if rs == [] {
      NoRequests(k, p);
    } else {
      var (before, r) := (rs[..|rs| - 1], rs[|rs| - 1]);
      RequestsUnderHits(k, before, p, key, inside);
      var cs := RunCalls(k, before);
      var buckets := After(map[], cs);
      HitsConcat(cs, Calls(k, buckets, r), key);
      CountConcat(Hits(cs, key), NewHits(buckets, Calls(k, buckets, r), key), inside);
      var last := if Answer(k, buckets, r) == None then [r] else [];
      CountConcat(LetThrough(k, before), last, p);
      CountOne(r, p);
      hide LeavesHits;
      assert LetThrough(k, rs) == LetThrough(k, before) + last;
      assert RunCalls(k, rs) == cs + Calls(k, buckets, r);
    }
  }

  lemma NoRequests(k: Knobs, p: Request -> bool)
    ensures Count(LetThrough(k, []), p) == 0
  {
  }

  lemma CountOne<T>(x: T, p: T -> bool)
    ensures Count([x], p) == (if p(x) then 1 else 0) && Count([], p) == 0
  {
    assert [x][1..] == [];
  }

  /** At most one less than two full windows, and none where the maximum is zero or less. */
  predicate AtMost(n: nat, max: int) {
    if max >= 1 then n <= 2 * max - 1 else n == 0
  }

  lemma ServedBound(k: Knobs, rs: seq<Request>, p: Request -> bool, key: string, max: int, window: int, from: real)
    requires RequestsForward(rs) && Uses(k, key, max, window) && LeavesHits(k, p, key, InWindow(from, window))
    ensures AtMost(Count(LetThrough(k, rs), p), max)
  {
    RequestsUnderHits(k, rs, p, key, InWindow(from, window));
    RequestSlidingBound(k, rs, key, max, window, from);
    hide Count, LeavesHits, Uses;
  }

  /** A call that is admitted is a hit at its own time. */
  lemma AdmittedHit(buckets: Buckets, c: Call, more: seq<Call>, from: real)
    requires Admits(buckets, c) && from <= c.now < from + c.window as real
    ensures Count(NewHits(buckets, [c] + more, c.key), InWindow(from, c.window)) >= 1
  {
    var h := Hit(c.now, Opened(buckets, c).start);
    var rest := NewHits(Next(buckets, c), more, c.key);
    assert ([c] + more)[1..] == more;
    assert NewHits(buckets, [c] + more, c.key) == [h] + rest;
    hide Admits, Opened, Next;
    CountConcat([h], rest, InWindow(from, c.window));
    CountOne(h, InWindow(from, c.window));
  }

  lemma SecondHit(buckets: Buckets, c: Call, d: Call, from: real)
    requires Admits(Next(buckets, c), d) && c.key != d.key && from <= d.now < from + d.window as real
    ensures Count(NewHits(buckets, [c, d], d.key), InWindow(from, d.window)) >= 1
  {
    AdmittedHit(Next(buckets, c), d, [], from);
    assert [d] + [] == [d] && [c, d][1..] == [d];
    hide Admits, Next;
  }

  function Logins(ip: string, from: real, window: int): Request -> bool {
    (r: Request) => r.LoginPost? && r.ip == ip && from <= r.now < from + window as real
  }

  function PaymentRequests(ip: string, from: real, window: int): Request -> bool {
    (r: Request) => r.CreatePaymentRequest? && r.ip == ip && from <= r.now < from + window as real
  }

  function ChecksFrom(ip: string, from: real, window: int): Request -> bool {
    (r: Request) => r.LicenseCheck? && r.ip == ip && from <= r.now < from + window as real
  }

  function ChecksOf(license: string, from: real, window: int): Request -> bool {
    (r: Request) => r.LicenseCheck? && r.licenseKey == license && from <= r.later < from + window as real
  }

  /** A request that is let through had its first limiter call admitted, and a license key its second. */
  lemma AdmittedCalls(k: Knobs, buckets: Buckets, r: Request)
    requires k.enabled && !r.OtherEndpoint? && Answer(k, buckets, r) == None
    ensures var cs := Calls(k, buckets, r);
      && cs != [] && Admits(buckets, cs[0])
      && (r.LicenseCheck? && r.licenseKey != "" ==> |cs| == 2 && Admits(Next(buckets, cs[0]), cs[1]))
  {
    AnswerOfCalls(k, buckets, r);
    CallsAre(k, buckets, r);
    hide Admits, Next, Answer, Calls, After;
  }

  lemma FirstCallHits(k: Knobs, buckets: Buckets, r: Request, key: string, window: int, from: real)
    requires k.enabled && !r.OtherEndpoint? && Answer(k, buckets, r) == None
    requires from <= r.now < from + window as real
    requires forall c :: Calls(k, buckets, r) != [] && c == Calls(k, buckets, r)[0] ==>
      c.key == key && c.window == window && c.now == r.now
    ensures Count(NewHits(buckets, Calls(k, buckets, r), key), InWindow(from, window)) >= 1
  {
    AdmittedCalls(k, buckets, r);
    hide *;
    var cs := Calls(k, buckets, r);
    assert cs == [cs[0]] + cs[1..];
    AdmittedHit(buckets, cs[0], cs[1..], from);
  }

  /** With limits on, at most 2*max - 1 logins of one address are let through in any window, whatever else is going on. */
  lemma LoginsBounded(k: Knobs, rs: seq<Request>, ip: string, from: real)
    requires k.enabled && RequestsForward(rs)
    ensures AtMost(Count(LetThrough(k, rs), Logins(ip, from, k.loginWindow)), k.loginMax)
  {
    var (p, key) := (Logins(ip, from, k.loginWindow), "login:" + ip);
    assert Uses(k, key, k.loginMax, k.loginWindow);
    hide Answer, After, NewHits, Count, Uses, Admits, InWindow;
    forall buckets, r | p(r) && Answer(k, buckets, r) == None
      ensures Count(NewHits(buckets, Calls(k, buckets, r), key), InWindow(from, k.loginWindow)) >= 1
    {
      FirstCallHits(k, buckets, r, key, k.loginWindow, from);
    }
    ServedBound(k, rs, p, key, k.loginMax, k.loginWindow, from);
  }

  /** The same for payment requests of one address, where a maximum or window of zero stands for the default. */
  lemma PaymentRequestsBounded(k: Knobs, rs: seq<Request>, ip: string, from: real)
    requires k.enabled && RequestsForward(rs)
    ensures var (max, window) := (if k.paymentMax == 0 then 20 else k.paymentMax, if k.paymentWindow == 0 then 300 else k.paymentWindow);
      AtMost(Count(LetThrough(k, rs), PaymentRequests(ip, from, window)), max)
  {
    var max := if k.paymentMax == 0 then 20 else k.paymentMax;
    var window := if k.paymentWindow == 0 then 300 else k.paymentWindow;
    var (p, key) := (PaymentRequests(ip, from, window), "pay-req-create-ip:" + ip);
    assert Uses(k, key, max, window);
    hide Answer, After, NewHits, Count, Uses, Admits, InWindow;
    forall buckets, r | p(r) && Answer(k, buckets, r) == None
      ensures Count(NewHits(buckets, Calls(k, buckets, r), key), InWindow(from, window)) >= 1
    {
      FirstCallHits(k, buckets, r, key, window, from);
    }
    ServedBound(k, rs, p, key, max, window, from);
  }

  /** The same for license checks from one address. */
  lemma ChecksFromBounded(k: Knobs, rs: seq<Request>, ip: string, from: real)
    requires k.enabled && RequestsForward(rs)
    ensures AtMost(Count(LetThrough(k, rs), ChecksFrom(ip, from, k.checkWindow)), k.checkMax)
  {
    var (p, key) := (ChecksFrom(ip, from, k.checkWindow), "license-check-ip:" + ip);
    assert Uses(k, key, k.checkMax, k.checkWindow);
    hide Answer, After, NewHits, Count, Uses, Admits, InWindow;
    forall buckets, r | p(r) && Answer(k, buckets, r) == None
      ensures Count(NewHits(buckets, Calls(k, buckets, r), key), InWindow(from, k.checkWindow)) >= 1
    {
      FirstCallHits(k, buckets, r, key, k.checkWindow, from);
    }
    ServedBound(k, rs, p, key, k.checkMax, k.checkWindow, from);
  }

  lemma SecondCallHits(k: Knobs, buckets: Buckets, r: Request, from: real)
    requires k.enabled && r.LicenseCheck? && r.licenseKey != "" && Answer(k, buckets, r) == None
    requires from <= r.later < from + k.licenseWindow as real
    ensures Count(NewHits(buckets, Calls(k, buckets, r), "license-check-key:" + r.licenseKey), InWindow(from, k.licenseWindow)) >= 1
  {
    AdmittedCalls(k, buckets, r);
    CallsAre(k, buckets, r);
    PrefixesDisjoint(r.ip, r.licenseKey);
    hide *;
    var cs := Calls(k, buckets, r);
    assert cs == [cs[0], cs[1]];
    SecondHit(buckets, cs[0], cs[1], from);
  }

  /** The same for license checks of one license key, from any number of addresses. */
  lemma ChecksOfBounded(k: Knobs, rs: seq<Request>, license: string, from: real)
    requires k.enabled && license != "" && RequestsForward(rs)
    ensures AtMost(Count(LetThrough(k, rs), ChecksOf(license, from, k.licenseWindow)), k.licenseMax)
  {
    var (p, key) := (ChecksOf(license, from, k.licenseWindow), "license-check-key:" + license);
    assert Uses(k, key, k.licenseMax, k.licenseWindow);
    hide Answer, After, NewHits, Count, Uses, Admits, InWindow, Calls;
    forall buckets, r | p(r) && Answer(k, buckets, r) == None
      ensures Count(NewHits(buckets, Calls(k, buckets, r), key), InWindow(from, k.licenseWindow)) >= 1
    {
      SecondCallHits(k, buckets, r, from);
    }
    ServedBound(k, rs, p, key, k.licenseMax, k.licenseWindow, from);
  }

  /** With limits off every request is let through and no bucket ever appears. */
  lemma {:induction false} LimitsOff(k: Knobs, rs: seq<Request>)
    requires !k.enabled
    ensures LetThrough(k, rs) == rs && RunCalls(k, rs) == [] && After(map[], RunCalls(k, rs)) == map[]
  {
    EmptyRun("");
    if rs != [] {
      var (before, r) := (rs[..|rs| - 1], rs[|rs| - 1]);
      LimitsOff(k, before);
      LetThroughIff(k, map[], r);
      CallsAre(k, map[], r);
      hide Answer, Calls, After;
      assert rs == before + [r];
    }
  }
}
