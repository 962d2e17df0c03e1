/** Replay protection of the proxy API: `_verify_proxy_token` and `_NONCE_CACHE`. */
module ReplayCache {
  import opened Counting
  import opened Decimal
  import opened Options
  import opened Sorting

  const NONCE_CACHE_MAX := 2000
  const EVICTION_BATCH := 500

  // ---------------------------------------------------------------- the cache

  /** One item of the dict: a cache key and the time it was stored. */
  datatype Entry = Entry(key: string, time: int)

  /** The dict's items in insertion order, the order Python iterates them in. */
  type Cache = seq<Entry>

  predicate Holds(cache: Cache, key: string) {
    exists e :: e in cache && e.key == key
  }

  predicate DistinctKeys(cache: Cache) {
    forall i, j :: 0 <= i < j < |cache| ==> cache[i].key != cache[j].key
  }

  predicate TimeOrdered(log: seq<Entry>) {
    forall i, j :: 0 <= i < j < |log| ==> log[i].time <= log[j].time
  }

  predicate Older(a: Entry, b: Entry) {
    a.time < b.time
  }

  /** The items left after popping every key of `gone`. */
  function PopAll(cache: Cache, gone: seq<Entry>): Cache {
    if cache == [] then []
    else (if Holds(gone, cache[0].key) then [] else [cache[0]]) + PopAll(cache[1..], gone)
  }

  function Trimmed(cache: Cache): Cache {
    if |cache| > NONCE_CACHE_MAX then PopAll(cache, Oldest(cache)) else cache
  }

  function Oldest(cache: Cache): seq<Entry> {
    var sorted := Sort(Older, cache);
    if |sorted| <= EVICTION_BATCH then sorted else sorted[..EVICTION_BATCH]
  }

  function Remembered(cache: Cache, key: string, now: int): Cache {
    Trimmed(cache + [Entry(key, now)])
  }

  // ---------------------------------------------------------------- eviction is first in, first out

  lemma {:induction false} PopPrefix(cache: Cache, gone: seq<Entry>, n: nat)
    requires n <= |cache|
    requires forall i :: 0 <= i < n ==> cache[i] in gone
    requires forall i, g :: n <= i < |cache| && g in gone ==> cache[i].key != g.key
    ensures PopAll(cache, gone) == cache[n..]
  {
    if cache == [] {
    } else if n == 0 {
      assert !Holds(gone, cache[0].key);
      PopPrefix(cache[1..], gone, 0);
    } else {
      assert Holds(gone, cache[0].key);
      PopPrefix(cache[1..], gone, n - 1);
    }
  }

  /** With a clock that never ran backwards, an overflow drops exactly the 500 entries inserted first. */
  lemma TrimDropsOldest(cache: Cache)
    requires DistinctKeys(cache) && TimeOrdered(cache)
    ensures Trimmed(cache) == if |cache| > NONCE_CACHE_MAX then cache[EVICTION_BATCH..] else cache
  {
    SortInOrder(Older, cache);
    if |cache| > NONCE_CACHE_MAX {
      PopPrefix(cache, cache[..EVICTION_BATCH], EVICTION_BATCH);
    }
  }

  /** How many of the newest keys the cache holds after `n` insertions. */
  function Kept(n: nat): nat {
    if n <= NONCE_CACHE_MAX then n
    else NONCE_CACHE_MAX + 1 - EVICTION_BATCH + (n - NONCE_CACHE_MAX - 1) % EVICTION_BATCH
  }

  lemma KeptStep(n: nat)
    ensures Kept(n + 1) == if Kept(n) == NONCE_CACHE_MAX then NONCE_CACHE_MAX + 1 - EVICTION_BATCH else Kept(n) + 1
    ensures Kept(n) <= n && Kept(n) <= NONCE_CACHE_MAX
    ensures n > NONCE_CACHE_MAX ==> Kept(n) > NONCE_CACHE_MAX - EVICTION_BATCH
  {
  }

  function Newest(log: seq<Entry>): Cache {
    log[|log| - Kept(|log|)..]
  }

  /**
   * The cache is a queue over the log of all insertions: it always holds the `Kept` newest of them, in
   * order. Never more than 2000, and after an eviction exactly the 1501 newest.
   */
  lemma RememberExtendsQueue(log: seq<Entry>, key: string, now: int)
    requires DistinctKeys(Newest(log)) && !Holds(Newest(log), key)
    requires TimeOrdered(log + [Entry(key, now)])
    ensures Remembered(Newest(log), key, now) == Newest(log + [Entry(key, now)])
    ensures DistinctKeys(Newest(log + [Entry(key, now)]))
  {
    hide *;
    var (e, kept, n) := (Entry(key, now), Newest(log), |log|);
    KeptStep(n);
    NewestIs(log);
    NewestIs(log + [e]);
    AddFresh(kept, e);
    assert kept + [e] == (log + [e])[n - Kept(n)..];
    SuffixOrdered(log + [e], n - Kept(n));
    TrimDropsOldest(kept + [e]);
    RememberedIs(kept, key, now);
    DropKeepsDistinct(kept + [e], if |kept| == NONCE_CACHE_MAX then EVICTION_BATCH else 0);
  }

  lemma SuffixOrdered(log: seq<Entry>, n: nat)
    requires TimeOrdered(log) && n <= |log|
    ensures TimeOrdered(log[n..])
  {
  }

  lemma RememberedIs(cache: Cache, key: string, now: int)
    ensures Remembered(cache, key, now) == Trimmed(cache + [Entry(key, now)])
  {
  }

  lemma NewestIs(log: seq<Entry>)
    ensures Kept(|log|) <= |log| && Newest(log) == log[|log| - Kept(|log|)..] && |Newest(log)| == Kept(|log|)
  {
  }

  lemma AddFresh(cache: Cache, e: Entry)
    requires DistinctKeys(cache) && !Holds(cache, e.key)
    ensures DistinctKeys(cache + [e])
  {
    forall i | 0 <= i < |cache| ensures cache[i].key != e.key {
      assert cache[i] in cache;
    }
  }

  lemma DropKeepsDistinct(cache: Cache, n: nat)
    requires DistinctKeys(cache) && n <= |cache|
    ensures DistinctKeys(cache[n..])
  {
  }

  /** A key is never forgotten before 1501 later insertions; 1501 of them can be enough. */
  lemma KeyLifetime(log: seq<Entry>, p: nat)
    requires p < |log|
    ensures |log| - 1 - p <= 1500 ==> log[p] in Newest(log)
    ensures |log| == 2001 && DistinctKeys(log) ==>
      (log[p] in Newest(log) <==> |log| - 1 - p < 1501)
  {
    KeptStep(|log|);
    var first := |log| - Kept(|log|);
    if p >= first {
      assert Newest(log)[p - first] == log[p];
    }
  }

  // ---------------------------------------------------------------- one request

  /** Library calls whose results the model takes as given. */
  datatype Library = Library(
    strip: string -> string,
    parseInt: string -> Option<int>,
    lower: string -> string,
    hmacHex: (string, string) -> string)

  /** A call of the proxy API: the secret in force, the header and the clock. */
  datatype Request = Request(secret: string, header: string, now: int)

  datatype Token = Token(ts: int, nonce: string, mac: string)

  function Colon(s: string): (n: nat)
    ensures n <= |s|
    ensures forall i :: 0 <= i < n ==> s[i] != ':'
    ensures n < |s| ==> s[n] == ':'
  {
    if s == "" || s[0] == ':' then 0 else 1 + Colon(s[1..])
  }

  /** `header.split(":", 2)` with its three parts, and the first one read as an integer. */
  function ParseToken(lib: Library, header: string): Option<Token> {
    var i := Colon(header);
    if i == |header| then None
    else
      var tail := header[i + 1..];
      var j := Colon(tail);
      if j == |tail| then None
      else
        match lib.parseInt(header[..i])
        case None => None
        case Some(ts) => Some(Token(ts, tail[..j], tail[j + 1..]))
  }

  function CacheKey(t: Token): string {
    IntText(t.ts) + ":" + t.nonce
  }

  function TokenOf(lib: Library, r: Request): Option<Token> {
    if r.secret == "" then None else ParseToken(lib, lib.strip(r.header))
  }

  function Age(t: Token, now: int): int {
    if now < t.ts then t.ts - now else now - t.ts
  }

  /** Does this request store its key? The signature is looked at only afterwards. */
  predicate Stores(lib: Library, ttl: int, cache: Cache, r: Request) {
    var t := TokenOf(lib, r);
    t.Some? && Age(t.value, r.now) <= ttl && !Holds(cache, CacheKey(t.value))
  }

  function Next(lib: Library, ttl: int, cache: Cache, r: Request): Cache {
    if Stores(lib, ttl, cache, r) then Remembered(cache, CacheKey(TokenOf(lib, r).value), r.now) else cache
  }

  predicate Ascii(s: string) {
    forall i :: 0 <= i < |s| ==> s[i] < 128 as char
  }

  function Expected(lib: Library, r: Request, t: Token): string {
    lib.lower(lib.hmacHex(r.secret, CacheKey(t)))
  }

  /** `compare_digest` takes ASCII text only; anything else makes it raise. */
  predicate Comparable(lib: Library, r: Request) {
    var t := TokenOf(lib, r);
    t.Some? && Ascii(lib.lower(t.value.mac)) && Ascii(Expected(lib, r, t.value))
  }

  predicate SignedRight(lib: Library, r: Request) {
    Comparable(lib, r) && lib.lower(TokenOf(lib, r).value.mac) == Expected(lib, r, TokenOf(lib, r).value)
  }

  predicate Accepts(lib: Library, ttl: int, cache: Cache, r: Request) {
    Stores(lib, ttl, cache, r) && SignedRight(lib, r)
  }

  datatype Verdict = Accepted | Refused | Raised

  function VerdictOf(lib: Library, ttl: int, cache: Cache, r: Request): Verdict {
    if !Stores(lib, ttl, cache, r) then Refused
    else if !Comparable(lib, r) then Raised
    else if SignedRight(lib, r) then Accepted
    else Refused
  }

  function Stored(lib: Library, ttl: int, cache: Cache, r: Request): seq<Entry> {
    if Stores(lib, ttl, cache, r) then [Entry(CacheKey(TokenOf(lib, r).value), r.now)] else []
  }

  /** The cache key determines the time stamp and the nonce. */
  lemma CacheKeyInjective(s: Token, t: Token)
    requires CacheKey(s) == CacheKey(t)
    ensures s.ts == t.ts && s.nonce == t.nonce
  {
    CacheKeyColon(s);
    CacheKeyColon(t);
    var (a, b) := (IntText(s.ts), IntText(t.ts));
    assert a == CacheKey(s)[..|a|] && b == CacheKey(t)[..|b|];
    assert s.nonce == CacheKey(s)[|a| + 1..] && t.nonce == CacheKey(t)[|b| + 1..];
    IntTextInjective(s.ts, t.ts);
  }

  lemma CacheKeyColon(t: Token)
    ensures Colon(CacheKey(t)) == |IntText(t.ts)|
  {
    var text := IntText(t.ts);
    assert AllDigits(NatText(if t.ts < 0 then -t.ts else t.ts));
    assert forall i :: 0 <= i < |text| ==> CacheKey(t)[i] == text[i] != ':';
    assert CacheKey(t)[|text|] == ':';
  }

  class TokenGate {
    const lib: Library
    const ttl: int
    var cache: Cache
    ghost var log: seq<Entry>

    ghost predicate Valid()
      reads this
    {
      TimeOrdered(log) && cache == Newest(log) && DistinctKeys(cache)
    }

    constructor (lib: Library, ttl: int)
      ensures this.lib == lib && this.ttl == ttl
      ensures Valid() && cache == [] && log == []
    {
      this.lib := lib;
      this.ttl := ttl;
      cache, log := [], [];
    }

    method VerifyProxyToken(r: Request) returns (verdict: Verdict)
      requires Valid() && NotAfter(log, r.now)
      modifies this`cache, this`log
      ensures Valid() && |cache| <= 2000
      ensures cache == Next(lib, ttl, old(cache), r)
      ensures verdict == VerdictOf(lib, ttl, old(cache), r)
      ensures verdict == Accepted <==> Accepts(lib, ttl, old(cache), r)
      ensures log == old(log) + Stored(lib, ttl, old(cache), r)
    {
      hide Newest, DistinctKeys, TimeOrdered, TokenOf, CacheKey, PopAll, Oldest, Ascii;
      StepKeepsQueue(lib, ttl, log, r);
      NewestBounded(log + Stored(lib, ttl, cache, r));
      log := log + Stored(lib, ttl, cache, r);
      var token := TokenOf(lib, r);
      if token.None? {
        return Refused;
      }
      var t := token.value;
      if Age(t, r.now) > ttl {
        return Refused;
      }
      var key := CacheKey(t);
      if Holds(cache, key) {
        return Refused;
      }
      cache := cache + [Entry(key, r.now)];
      if |cache| > NONCE_CACHE_MAX {
        cache := PopAll(cache, Oldest(cache));
      }
      var given, expected := lib.lower(t.mac), lib.lower(lib.hmacHex(r.secret, key));
      if !Ascii(given) || !Ascii(expected) {
        return Raised;
      }
      verdict := if given == expected then Accepted else Refused;
    }
  }

  lemma NewestBounded(log: seq<Entry>)
    ensures |Newest(log)| <= 2000
  {
    KeptStep(|log|);
  }

  // ---------------------------------------------------------------- whole runs

  function CacheAfter(lib: Library, ttl: int, rs: seq<Request>): Cache {
    if rs == [] then []
    else Next(lib, ttl, CacheAfter(lib, ttl, rs[..|rs| - 1]), rs[|rs| - 1])
  }

  /** Every insertion of the run, in order. */
  function Log(lib: Library, ttl: int, rs: seq<Request>): seq<Entry> {
    if rs == [] then []
    else Log(lib, ttl, rs[..|rs| - 1]) + Stored(lib, ttl, CacheAfter(lib, ttl, rs[..|rs| - 1]), rs[|rs| - 1])
  }

  predicate AcceptedAt(lib: Library, ttl: int, rs: seq<Request>, i: nat)
    requires i < |rs|
  {
    Accepts(lib, ttl, CacheAfter(lib, ttl, rs[..i]), rs[i])
  }

  predicate ClockForward(rs: seq<Request>) {
    forall i, j :: 0 <= i < j < |rs| ==> rs[i].now <= rs[j].now
  }

  predicate NotAfter(log: seq<Entry>, now: int) {
    log != [] ==> log[|log| - 1].time <= now
  }

  lemma StepKeepsQueue(lib: Library, ttl: int, log: seq<Entry>, r: Request)
    requires TimeOrdered(log) && DistinctKeys(Newest(log)) && NotAfter(log, r.now)
    ensures var log' := log + Stored(lib, ttl, Newest(log), r);
      TimeOrdered(log') && Next(lib, ttl, Newest(log), r) == Newest(log') && DistinctKeys(Newest(log')) &&
      NotAfter(log', r.now)
  {
    hide Newest, DistinctKeys, Remembered, TokenOf;
    if Stores(lib, ttl, Newest(log), r) {
      var key := CacheKey(TokenOf(lib, r).value);
      assert TimeOrdered(log + [Entry(key, r.now)]);
      RememberExtendsQueue(log, key, r.now);
    } else {
      assert log + [] == log;
    }
  }

  lemma {:induction false} RunKeepsQueue(lib: Library, ttl: int, rs: seq<Request>)
    requires ClockForward(rs)
    ensures var log := Log(lib, ttl, rs);
      TimeOrdered(log) && CacheAfter(lib, ttl, rs) == Newest(log) && DistinctKeys(Newest(log)) &&
      (if rs == [] then log == [] else NotAfter(log, rs[|rs| - 1].now))
  {
    if rs != [] {
      hide Newest, DistinctKeys, Next, Stored;
      var before := rs[..|rs| - 1];
      RunKeepsQueue(lib, ttl, before);
      assert before != [] ==> before[|before| - 1].now <= rs[|rs| - 1].now;
      StepKeepsQueue(lib, ttl, Log(lib, ttl, before), rs[|rs| - 1]);
    }
  }

  /** The log of a prefix is a prefix of the log, and a storing request adds the next entry. */
  lemma {:induction false} LogPrefix(lib: Library, ttl: int, rs: seq<Request>, i: nat)
    requires i <= |rs|
    ensures Log(lib, ttl, rs[..i]) <= Log(lib, ttl, rs)
  {
    if i < |rs| {
      LogPrefix(lib, ttl, rs[..|rs| - 1], i);
      assert rs[..|rs| - 1][..i] == rs[..i];
    } else {
      assert rs[..i] == rs;
    }
  }

  lemma LogStep(lib: Library, ttl: int, rs: seq<Request>, i: nat)
    requires i < |rs|
    ensures Log(lib, ttl, rs[..i + 1]) ==
      Log(lib, ttl, rs[..i]) + Stored(lib, ttl, CacheAfter(lib, ttl, rs[..i]), rs[i])
  {
    hide Stored, Next;
    assert rs[..i + 1][..i] == rs[..i];
  }

  lemma StoredAt(lib: Library, ttl: int, rs: seq<Request>, i: nat)
    requires i < |rs| && Stores(lib, ttl, CacheAfter(lib, ttl, rs[..i]), rs[i])
    ensures var p := |Log(lib, ttl, rs[..i])|;
      p < |Log(lib, ttl, rs)| && p < |Log(lib, ttl, rs[..i + 1])| &&
      Log(lib, ttl, rs)[p] == Entry(CacheKey(TokenOf(lib, rs[i]).value), rs[i].now)
  {
    hide Log, CacheAfter, Stores, CacheKey, TokenOf;
    LogStep(lib, ttl, rs, i);
    LogPrefix(lib, ttl, rs, i + 1);
  }

  function Within(from: int, span: int): Entry -> bool {
    (e: Entry) => from <= e.time <= from + span
  }

  /** No stretch of `span` seconds, ends included, sees more than `limit` insertions. */
  ghost predicate Paced(log: seq<Entry>, span: int, limit: nat) {
    forall from: int :: Count(log, Within(from, span)) <= limit
  }

  /** A key stored twice was evicted in between, and that takes 1503 insertions with it at both ends. */
  lemma TwiceStoredIsFarApart(log: seq<Entry>, p: nat, q: nat)
    requires p < q < |log| && log[p].key == log[q].key
    requires !Holds(Newest(log[..q]), log[q].key)
    ensures q - p >= 1502
  {
    KeptStep(q);
    KeyLifetime(log[..q], p);
    assert log[..q][p] == log[p];
  }

  /** Accepting the same time stamp and nonce twice takes 1503 insertions within 2*TTL seconds. */
  lemma TwiceAcceptedIsCrowded(lib: Library, ttl: int, rs: seq<Request>, i: nat, j: nat)
    requires i < j < |rs| && ClockForward(rs)
    requires AcceptedAt(lib, ttl, rs, i) && AcceptedAt(lib, ttl, rs, j)
    requires TokenOf(lib, rs[i]).value.ts == TokenOf(lib, rs[j]).value.ts
    requires TokenOf(lib, rs[i]).value.nonce == TokenOf(lib, rs[j]).value.nonce
    ensures Count(Log(lib, ttl, rs), Within(rs[i].now, 2 * ttl)) >= 1503
  {
    hide Log, Newest, TokenOf, CacheAfter, Count;
    var log := Log(lib, ttl, rs);
    var (p, q) := (|Log(lib, ttl, rs[..i])|, |Log(lib, ttl, rs[..j])|);
    StoredAt(lib, ttl, rs, i);
    StoredAt(lib, ttl, rs, j);
    LogPrefix(lib, ttl, rs[..j], i + 1);
    assert rs[..j][..i + 1] == rs[..i + 1];
    LogPrefix(lib, ttl, rs, j);
    assert log[..q] == Log(lib, ttl, rs[..j]);
    RunKeepsQueue(lib, ttl, rs[..j]);
    TwiceStoredIsFarApart(log, p, q);
    RunKeepsQueue(lib, ttl, rs);
    CountAtLeast(log, Within(rs[i].now, 2 * ttl), p, q + 1);
  }

  /**
   * Replay safety. If at most 1502 keys are stored in any 2*TTL seconds, no time stamp and nonce are
   * accepted twice, however long the run.
   */
  lemma NoReplay(lib: Library, ttl: int, rs: seq<Request>, i: nat, j: nat)
    requires i < j < |rs| && ClockForward(rs)
    requires Paced(Log(lib, ttl, rs), 2 * ttl, 1502)
    requires AcceptedAt(lib, ttl, rs, i) && AcceptedAt(lib, ttl, rs, j)
    ensures TokenOf(lib, rs[i]).value.ts != TokenOf(lib, rs[j]).value.ts ||
      TokenOf(lib, rs[i]).value.nonce != TokenOf(lib, rs[j]).value.nonce
  {
    var (s, t) := (TokenOf(lib, rs[i]).value, TokenOf(lib, rs[j]).value);
    if s.ts == t.ts && s.nonce == t.nonce {
      TwiceAcceptedIsCrowded(lib, ttl, rs, i, j);
    }
  }

  predicate Timely(lib: Library, ttl: int, r: Request) {
    TokenOf(lib, r).Some? && Age(TokenOf(lib, r).value, r.now) <= ttl
  }

  function KeyOf(lib: Library, r: Request): string {
    if TokenOf(lib, r).Some? then CacheKey(TokenOf(lib, r).value) else ""
  }

  /** Every request of the run carries a timely token, and no two tokens share a key. */
  ghost predicate FreshTokens(lib: Library, ttl: int, rs: seq<Request>) {
    && (forall i :: 0 <= i < |rs| ==> Timely(lib, ttl, rs[i]))
    && (forall i, j :: 0 <= i < j < |rs| ==> KeyOf(lib, rs[i]) != KeyOf(lib, rs[j]))
  }

  /** One insertion for each request, in order. */
  function Entries(lib: Library, rs: seq<Request>): (log: seq<Entry>)
    ensures |log| == |rs|
    ensures forall i :: 0 <= i < |rs| ==> log[i] == Entry(KeyOf(lib, rs[i]), rs[i].now)
  {
    seq(|rs|, i requires 0 <= i < |rs| => Entry(KeyOf(lib, rs[i]), rs[i].now))
  }

  lemma EmptyLog(lib: Library, ttl: int)
    ensures Log(lib, ttl, []) == Entries(lib, [])
  {
  }

  lemma FreshPrefix(lib: Library, ttl: int, rs: seq<Request>)
    requires ClockForward(rs) && FreshTokens(lib, ttl, rs) && rs != []
    ensures var (before, last) := (rs[..|rs| - 1], rs[|rs| - 1]);
      && ClockForward(before) && FreshTokens(lib, ttl, before) && Timely(lib, ttl, last)
      && Entries(lib, rs) == Entries(lib, before) + [Entry(KeyOf(lib, last), last.now)]
      && !Holds(Entries(lib, before), KeyOf(lib, last))
  {
    hide Timely, KeyOf;
  }

  lemma FreshIsStored(lib: Library, ttl: int, log: seq<Entry>, r: Request)
    requires Timely(lib, ttl, r) && !Holds(log, KeyOf(lib, r))
    ensures Stored(lib, ttl, Newest(log), r) == [Entry(KeyOf(lib, r), r.now)]
  {
    KeptStep(|log|);
    assert forall e :: e in Newest(log) ==> e in log;
    hide TokenOf, CacheKey, Age;
  }

  lemma {:induction false} FreshTokensAllStored(lib: Library, ttl: int, rs: seq<Request>)
    requires ClockForward(rs) && FreshTokens(lib, ttl, rs)
    ensures Log(lib, ttl, rs) == Entries(lib, rs)
  {
    hide *;
    if rs == [] {
      EmptyLog(lib, ttl);
    } else {
      var n := |rs| - 1;
      var before := rs[..n];
      FreshPrefix(lib, ttl, rs);
      FreshTokensAllStored(lib, ttl, before);
      RunKeepsQueue(lib, ttl, before);
      FreshIsStored(lib, ttl, Log(lib, ttl, before), rs[n]);
      LogStep(lib, ttl, rs, n);
      assert rs[..n + 1] == rs;
    }
  }

  /** After any 2001 fresh tokens exactly the 500 that came first are forgotten. */
  lemma ForgottenAfter(lib: Library, ttl: int, rs: seq<Request>, i: nat)
    requires ClockForward(rs) && FreshTokens(lib, ttl, rs)
    requires i < |rs| == 2001
    ensures Holds(CacheAfter(lib, ttl, rs), KeyOf(lib, rs[i])) <==> i >= 500
  {
    hide *;
    FreshTokensAllStored(lib, ttl, rs);
    RunKeepsQueue(lib, ttl, rs);
    var log := Entries(lib, rs);
    FirstDropped(log);
    FreshApart(lib, ttl, rs);
    HeldFrom(log, 500, i);
  }

  lemma FirstDropped(log: seq<Entry>)
    requires |log| == 2001
    ensures Newest(log) == log[500..]
  {
  }

  lemma FreshApart(lib: Library, ttl: int, rs: seq<Request>)
    requires FreshTokens(lib, ttl, rs)
    ensures DistinctKeys(Entries(lib, rs))
  {
    hide Timely, KeyOf;
  }

  lemma HeldFrom(log: seq<Entry>, n: nat, i: nat)
    requires DistinctKeys(log) && n <= |log| && i < |log|
    ensures Holds(log[n..], log[i].key) <==> i >= n
  {
    if i >= n {
      assert log[n..][i - n] == log[i];
    }
  }

  // ---------------------------------------------------------------- exactly which requests are accepted

  /** The stripped header is a time text, a nonce and a signature between its first two colons. */
  ghost predicate Presents(lib: Library, header: string, ts: int, nonce: string, mac: string) {
    exists text :: SplitsInto(lib.strip(header), text, nonce, mac) && lib.parseInt(text) == Some(ts)
  }

  predicate SplitsInto(s: string, text: string, nonce: string, mac: string) {
    s == text + ":" + (nonce + ":" + mac) && ':' !in text && ':' !in nonce
  }

  lemma NoColon(s: string)
    ensures ':' !in s <==> Colon(s) == |s|
  {
  }

  lemma SplitsParsed(lib: Library, s: string, text: string, nonce: string, mac: string)
    requires SplitsInto(s, text, nonce, mac)
    ensures ParseToken(lib, s) == match lib.parseInt(text) { case None => None case Some(ts) => Some(Token(ts, nonce, mac)) }
  {
    NoColon(text);
    NoColon(nonce);
    ParseParts(lib, text, nonce, mac);
  }

  lemma CutHere(s: string, i: nat)
    requires i < |s| && s[i] == ':'
    ensures s == s[..i] + ":" + s[i + 1..]
  {
  }

  lemma SplitAtColon(s: string)
    requires Colon(s) < |s|
    ensures var i := Colon(s); s == s[..i] + ":" + s[i + 1..] && ':' !in s[..i]
  {
    CutHere(s, Colon(s));
    assert forall i :: 0 <= i < Colon(s) ==> s[i] != ':';
    hide Colon;
  }

  lemma ParsedSplits(lib: Library, s: string) returns (text: string)
    requires ParseToken(lib, s).Some?
    ensures var t := ParseToken(lib, s).value; SplitsInto(s, text, t.nonce, t.mac) && lib.parseInt(text) == Some(t.ts)
  {
    SplitAtColon(s);
    SplitAtColon(s[Colon(s) + 1..]);
    text := s[..Colon(s)];
    hide Colon;
    var t := ParseToken(lib, s).value;
    assert s == text + ":" + (t.nonce + ":" + t.mac);
  }

  /** The token of a request is what its header presents, as long as there is a secret. */
  lemma TokenPresented(lib: Library, r: Request, ts: int, nonce: string, mac: string)
    ensures r.secret != "" && Presents(lib, r.header, ts, nonce, mac) <==> TokenOf(lib, r) == Some(Token(ts, nonce, mac))
  {
    hide ParseToken, SplitsInto;
    var s := lib.strip(r.header);
    if r.secret != "" && Presents(lib, r.header, ts, nonce, mac) {
      var text :| SplitsInto(s, text, nonce, mac) && lib.parseInt(text) == Some(ts);
      SplitsParsed(lib, s, text, nonce, mac);
    }
    if TokenOf(lib, r) == Some(Token(ts, nonce, mac)) {
      var text := ParsedSplits(lib, s);
    }
  }

  /** A timely token under a key that is not remembered. */
  predicate TimelyAndFresh(ttl: int, cache: Cache, now: int, ts: int, nonce: string) {
    -ttl <= now - ts <= ttl && forall e :: e in cache ==> e.key != IntText(ts) + ":" + nonce
  }

  /** The presented signature is the HMAC of time stamp and nonce under the secret, whatever its case. */
  predicate Signed(lib: Library, secret: string, ts: int, nonce: string, mac: string) {
    var (given, due) := (lib.lower(mac), lib.lower(lib.hmacHex(secret, IntText(ts) + ":" + nonce)));
    given == due && (forall c :: c in given ==> c < 128 as char)
  }

  lemma AsciiHolds(s: string)
    ensures Ascii(s) <==> forall c :: c in s ==> c < 128 as char
  {
    assert forall i :: 0 <= i < |s| ==> s[i] in s;
  }

  lemma StoresTimelyAndFresh(lib: Library, ttl: int, cache: Cache, r: Request)
    ensures Stores(lib, ttl, cache, r) <==>
      TokenOf(lib, r).Some? && TimelyAndFresh(ttl, cache, r.now, TokenOf(lib, r).value.ts, TokenOf(lib, r).value.nonce)
  {
    hide TokenOf, IntText;
  }

  lemma SignedRightIff(lib: Library, r: Request)
    requires TokenOf(lib, r).Some?
    ensures var t := TokenOf(lib, r).value; SignedRight(lib, r) <==> Signed(lib, r.secret, t.ts, t.nonce, t.mac)
  {
    var t := TokenOf(lib, r).value;
    hide TokenOf, Ascii, IntText;
    AsciiHolds(lib.lower(t.mac));
    assert Expected(lib, r, t) == lib.lower(lib.hmacHex(r.secret, IntText(t.ts) + ":" + t.nonce));
  }

  /**
   * A request is accepted if and only if there is a secret, the header presents a timely token whose key is
   * not remembered, and the signature is the one due. It stores its key under the same conditions but the last.
   */
  lemma AcceptsIff(lib: Library, ttl: int, cache: Cache, r: Request)
    ensures Accepts(lib, ttl, cache, r) <==> r.secret != "" && exists ts, nonce, mac ::
      Presents(lib, r.header, ts, nonce, mac) && TimelyAndFresh(ttl, cache, r.now, ts, nonce) && Signed(lib, r.secret, ts, nonce, mac)
    ensures Stores(lib, ttl, cache, r) <==> r.secret != "" && exists ts, nonce, mac ::
      Presents(lib, r.header, ts, nonce, mac) && TimelyAndFresh(ttl, cache, r.now, ts, nonce)
  {
    forall ts, nonce, mac
      ensures r.secret != "" && Presents(lib, r.header, ts, nonce, mac) <==> TokenOf(lib, r) == Some(Token(ts, nonce, mac))
    {
      TokenPresented(lib, r, ts, nonce, mac);
    }
    StoresTimelyAndFresh(lib, ttl, cache, r);
    assert Accepts(lib, ttl, cache, r) <==> Stores(lib, ttl, cache, r) && SignedRight(lib, r);
    hide *;
    if TokenOf(lib, r).Some? {
      var t := TokenOf(lib, r).value;
      SignedRightIff(lib, r);
      assert TokenOf(lib, r) == Some(Token(t.ts, t.nonce, t.mac));
    }
  }

  /** The comparison raises exactly on a timely fresh token whose signature, or the one due, is not ASCII. */
  lemma RaisesIff(lib: Library, ttl: int, cache: Cache, r: Request, ts: int, nonce: string, mac: string)
    requires r.secret != "" && Presents(lib, r.header, ts, nonce, mac)
    ensures VerdictOf(lib, ttl, cache, r) == Raised <==>
      && TimelyAndFresh(ttl, cache, r.now, ts, nonce)
      && exists c :: c >= 128 as char && (c in lib.lower(mac) || c in lib.lower(lib.hmacHex(r.secret, IntText(ts) + ":" + nonce)))
  {
    TokenPresented(lib, r, ts, nonce, mac);
    StoresTimelyAndFresh(lib, ttl, cache, r);
    var t := Token(ts, nonce, mac);
    AsciiHolds(lib.lower(mac));
    AsciiHolds(Expected(lib, r, t));
    assert Expected(lib, r, t) == lib.lower(lib.hmacHex(r.secret, IntText(ts) + ":" + nonce));
    hide Presents, TokenOf, Ascii, Expected, Stores, TimelyAndFresh;
  }

  /** The same for a request in a run. */
  lemma AcceptedAtIff(lib: Library, ttl: int, rs: seq<Request>, i: nat)
    requires i < |rs|
    ensures AcceptedAt(lib, ttl, rs, i) <==> rs[i].secret != "" && exists ts, nonce, mac ::
      && Presents(lib, rs[i].header, ts, nonce, mac)
      && TimelyAndFresh(ttl, CacheAfter(lib, ttl, rs[..i]), rs[i].now, ts, nonce)
      && Signed(lib, rs[i].secret, ts, nonce, mac)
  {
    AcceptsIff(lib, ttl, CacheAfter(lib, ttl, rs[..i]), rs[i]);
    hide Accepts, CacheAfter, Presents, TimelyAndFresh, Signed;
  }

  /** A token with another signature than the one due is accepted at no place of any run. */
  lemma ForgedNeverAccepted(lib: Library, ttl: int, rs: seq<Request>, i: nat, ts: int, nonce: string, mac: string)
    requires i < |rs| && Presents(lib, rs[i].header, ts, nonce, mac)
    requires lib.lower(mac) != lib.lower(lib.hmacHex(rs[i].secret, IntText(ts) + ":" + nonce))
    ensures !AcceptedAt(lib, ttl, rs, i)
  {
    AcceptedAtIff(lib, ttl, rs, i);
    hide AcceptedAt, CacheAfter, Presents, IntText;
    if ts', nonce', mac' :| rs[i].secret != "" && Presents(lib, rs[i].header, ts', nonce', mac') && Signed(lib, rs[i].secret, ts', nonce', mac') {
      TokenPresented(lib, rs[i], ts, nonce, mac);
      TokenPresented(lib, rs[i], ts', nonce', mac');
    }
  }

  // ---------------------------------------------------------------- the bound is sharp

  /** The two requests carry the same time stamp and nonce at the same time, or neither carries a token. */
  predicate SameKey(lib: Library, r: Request, s: Request) {
    && r.now == s.now
    && match (TokenOf(lib, r), TokenOf(lib, s)) {
      case (Some(t), Some(u)) => t.ts == u.ts && t.nonce == u.nonce
      case (None, None) => true
      case _ => false
    }
  }

  lemma SameKeyStep(lib: Library, ttl: int, cache: Cache, r: Request, s: Request)
    requires SameKey(lib, r, s)
    ensures Next(lib, ttl, cache, r) == Next(lib, ttl, cache, s)
    ensures Stored(lib, ttl, cache, r) == Stored(lib, ttl, cache, s)
  {
    hide TokenOf, Remembered;
    assert TokenOf(lib, r).Some? ==> CacheKey(TokenOf(lib, r).value) == CacheKey(TokenOf(lib, s).value);
    hide CacheKey;
  }

  /**
   * A key is stored before its signature is looked at, so signatures have no part in what is remembered and
   * forgotten: the pace NoReplay asks for is that of all timely tokens, whether signed or not.
   */
  lemma {:induction false} SignaturesDoNotMatter(lib: Library, ttl: int, rs: seq<Request>, ss: seq<Request>)
    requires |rs| == |ss| && forall i :: 0 <= i < |rs| ==> SameKey(lib, rs[i], ss[i])
    ensures CacheAfter(lib, ttl, rs) == CacheAfter(lib, ttl, ss) && Log(lib, ttl, rs) == Log(lib, ttl, ss)
  {
    hide SameKey, Next, Stored;
    if rs != [] {
      var n := |rs| - 1;
      SignaturesDoNotMatter(lib, ttl, rs[..n], ss[..n]);
      SameKeyStep(lib, ttl, CacheAfter(lib, ttl, rs[..n]), rs[n], ss[n]);
    }
  }

  lemma {:induction false} CacheFromLog(lib: Library, ttl: int, rs: seq<Request>)
    requires ClockForward(rs) && FreshTokens(lib, ttl, rs)
    ensures CacheAfter(lib, ttl, rs) == Newest(Entries(lib, rs))
  {
    hide *;
    FreshTokensAllStored(lib, ttl, rs);
    RunKeepsQueue(lib, ttl, rs);
  }

  lemma FreshPart(lib: Library, ttl: int, rs: seq<Request>, i: nat)
    requires ClockForward(rs) && FreshTokens(lib, ttl, rs) && i < |rs|
    ensures ClockForward(rs[..i]) && FreshTokens(lib, ttl, rs[..i])
    ensures Timely(lib, ttl, rs[i]) && !Holds(Entries(lib, rs[..i]), KeyOf(lib, rs[i]))
  {
    hide Timely, KeyOf;
  }

  lemma StoresIff(lib: Library, ttl: int, cache: Cache, r: Request)
    ensures Stores(lib, ttl, cache, r) <==> Timely(lib, ttl, r) && !Holds(cache, KeyOf(lib, r))
  {
    hide TokenOf, CacheKey, Age, Holds;
  }

  lemma NewestHolds(log: seq<Entry>, key: string)
    requires !Holds(log, key)
    ensures !Holds(Newest(log), key)
  {
    KeptStep(|log|);
    assert forall e :: e in Newest(log) ==> e in log;
  }

  lemma FreshAccepted(lib: Library, ttl: int, rs: seq<Request>, i: nat)
    requires ClockForward(rs) && FreshTokens(lib, ttl, rs) && i < |rs|
    ensures AcceptedAt(lib, ttl, rs, i) <==> SignedRight(lib, rs[i])
  {
    hide *;
    FreshPart(lib, ttl, rs, i);
    CacheFromLog(lib, ttl, rs[..i]);
    NewestHolds(Entries(lib, rs[..i]), KeyOf(lib, rs[i]));
    StoresIff(lib, ttl, CacheAfter(lib, ttl, rs[..i]), rs[i]);
    AcceptedWhen(lib, ttl, rs, i);
  }

  lemma AcceptedWhen(lib: Library, ttl: int, rs: seq<Request>, i: nat)
    requires i < |rs|
    ensures AcceptedAt(lib, ttl, rs, i) <==>
      Stores(lib, ttl, CacheAfter(lib, ttl, rs[..i]), rs[i]) && SignedRight(lib, rs[i])
  {
    hide Stores, SignedRight, CacheAfter;
  }

  /** The same header again, under the same secret. */
  predicate Repeats(r: Request, s: Request) {
    r.secret == s.secret && r.header == s.header
  }

  lemma RepeatsKey(lib: Library, r: Request, s: Request)
    requires Repeats(r, s)
    ensures TokenOf(lib, r) == TokenOf(lib, s) && KeyOf(lib, r) == KeyOf(lib, s)
    ensures SignedRight(lib, r) <==> SignedRight(lib, s)
  {
  }

  /** A rightly signed token among the first 500 of 2001 fresh ones is accepted, and accepted again when it is repeated in time. */
  lemma BurstReplays(lib: Library, ttl: int, rs: seq<Request>, i: nat, r: Request)
    requires ClockForward(rs) && FreshTokens(lib, ttl, rs) && |rs| == 2001 && i < 500
    requires SignedRight(lib, rs[i]) && Repeats(r, rs[i]) && Timely(lib, ttl, r)
    ensures AcceptedAt(lib, ttl, rs + [r], i) && AcceptedAt(lib, ttl, rs + [r], |rs|)
    ensures Log(lib, ttl, rs + [r]) == Entries(lib, rs) + [Entry(KeyOf(lib, r), r.now)]
  {
    assert i < |rs|;
    hide *;
    var more := rs + [r];
    FreshAccepted(lib, ttl, rs, i);
    assert more[..i] == rs[..i] && more[i] == rs[i] && more[..|rs|] == rs && more[..|rs| + 1] == more;
    AcceptedWhen(lib, ttl, rs, i);
    AcceptedWhen(lib, ttl, more, i);
    ForgottenAfter(lib, ttl, rs, i);
    RepeatsKey(lib, r, rs[i]);
    StoresIff(lib, ttl, CacheAfter(lib, ttl, rs), r);
    AcceptedWhen(lib, ttl, more, |rs|);
    LogStep(lib, ttl, more, |rs|);
    FreshTokensAllStored(lib, ttl, rs);
    StoredWhen(lib, ttl, CacheAfter(lib, ttl, rs), r);
  }

  lemma StoredWhen(lib: Library, ttl: int, cache: Cache, r: Request)
    requires Stores(lib, ttl, cache, r)
    ensures Stored(lib, ttl, cache, r) == [Entry(KeyOf(lib, r), r.now)]
  {
    hide CacheKey, Age, Holds;
  }

  // ---------------------------------------------------------------- a run that attains it

  predicate Printable(c: char) {
    '!' <= c <= '~'
  }

  predicate Bare(s: string) {
    s != "" && Printable(s[0]) && Printable(s[|s| - 1])
  }

  /** What Python's `int`, `strip` and HMAC-SHA256 do on the texts of the run below. */
  ghost predicate Lawful(lib: Library) {
    && (forall n: int :: lib.parseInt(IntText(n)) == Some(n))
    && (forall s :: Bare(s) ==> lib.strip(s) == s)
    && (forall k, m :: Bare(lib.hmacHex(k, m)) && Ascii(lib.lower(lib.hmacHex(k, m))))
  }

  ghost function ReadInt(s: string): Option<int> {
    if exists n: int :: IntText(n) == s then var n: int :| IntText(n) == s; Some(n) else None
  }

  /** There is such a library. */
  lemma SomeLibraryIsLawful() returns (lib: Library)
    ensures Lawful(lib)
  {
    lib := Library(s => s, s => ReadInt(s), s => s, (k, m) => "0");
    forall n: int ensures ReadInt(IntText(n)) == Some(n) {
      forall m: int | IntText(m) == IntText(n) ensures m == n {
        IntTextInjective(m, n);
      }
    }
  }

  function Header(t: Token): string {
    CacheKey(t) + ":" + t.mac
  }

  lemma NumberIsPlain(n: int)
    ensures Colon(IntText(n)) == |IntText(n)| && Printable(IntText(n)[0])
  {
    var text := IntText(n);
    assert AllDigits(NatText(if n < 0 then -n else n));
    assert forall i :: 0 <= i < |text| ==> text[i] != ':' && Printable(text[i]);
  }

  lemma CutAt(a: string, b: string)
    requires Colon(a) == |a|
    ensures var s := a + ":" + b; Colon(s) == |a| && |s| > |a| && s[..|a|] == a && s[|a| + 1..] == b
  {
    var s := a + ":" + b;
    assert forall i :: 0 <= i < |a| ==> s[i] == a[i];
    assert s[|a|] == ':';
  }

  lemma ParseParts(lib: Library, a: string, nonce: string, mac: string)
    requires Colon(a) == |a| && Colon(nonce) == |nonce|
    ensures ParseToken(lib, a + ":" + (nonce + ":" + mac)) ==
      match lib.parseInt(a) { case None => None case Some(ts) => Some(Token(ts, nonce, mac)) }
  {
    CutAt(a, nonce + ":" + mac);
    CutAt(nonce, mac);
    hide Colon;
  }

  lemma HeaderBare(t: Token)
    requires Bare(t.mac)
    ensures Bare(Header(t))
  {
    NumberIsPlain(t.ts);
    var (a, h) := (IntText(t.ts), Header(t));
    hide IntText;
    assert h[0] == a[0] && h[|h| - 1] == t.mac[|t.mac| - 1];
  }

  lemma LawfulUse(lib: Library, s: string, n: int)
    requires Lawful(lib)
    ensures lib.parseInt(IntText(n)) == Some(n) && (Bare(s) ==> lib.strip(s) == s)
  {
    hide IntText, Bare;
  }

  lemma TokenParsed(lib: Library, r: Request)
    requires r.secret != ""
    ensures TokenOf(lib, r) == ParseToken(lib, lib.strip(r.header))
  {
    hide ParseToken;
  }

  lemma HeaderIs(t: Token)
    ensures Header(t) == IntText(t.ts) + ":" + (t.nonce + ":" + t.mac)
  {
    hide IntText;
  }

  lemma HeaderReadsBack(lib: Library, t: Token, secret: string, now: int)
    requires Lawful(lib) && secret != "" && Bare(t.mac) && Colon(t.nonce) == |t.nonce|
    ensures TokenOf(lib, Request(secret, Header(t), now)) == Some(t)
  {
    hide *;
    NumberIsPlain(t.ts);
    HeaderBare(t);
    HeaderIs(t);
    LawfulUse(lib, Header(t), t.ts);
    TokenParsed(lib, Request(secret, Header(t), now));
    ParseParts(lib, IntText(t.ts), t.nonce, t.mac);
  }

  /** The token of the k-th request of a burst: the first 499 long before it, then 1502 at one time. */
  function BurstToken(lib: Library, ttl: nat, secret: string, mac: string, k: nat): Token {
    if k < 499 then Token(0, IntText(k), mac)
    else
      var t := Token(3 * ttl + 1, IntText(k), mac);
      if k == 499 then t.(mac := lib.hmacHex(secret, CacheKey(t))) else t
  }

  function BurstRequest(lib: Library, ttl: nat, secret: string, mac: string, k: nat): Request {
    Request(secret, Header(BurstToken(lib, ttl, secret, mac, k)), if k < 499 then 0 else 2 * ttl + 1)
  }

  function Burst(lib: Library, ttl: nat, secret: string, mac: string): (rs: seq<Request>)
    ensures |rs| == 2001
    ensures forall k :: 0 <= k < |rs| ==> rs[k] == BurstRequest(lib, ttl, secret, mac, k)
  {
    seq(2001, k requires 0 <= k => BurstRequest(lib, ttl, secret, mac, k))
  }

  lemma BurstTokenRead(lib: Library, ttl: nat, secret: string, mac: string, k: nat)
    requires Lawful(lib) && secret != "" && Bare(mac)
    ensures var (r, t) := (BurstRequest(lib, ttl, secret, mac, k), BurstToken(lib, ttl, secret, mac, k));
      TokenOf(lib, r) == Some(t) && KeyOf(lib, r) == CacheKey(t) && Timely(lib, ttl, r)
  {
    NumberIsPlain(k);
    var t := BurstToken(lib, ttl, secret, mac, k);
    HeaderReadsBack(lib, t, secret, BurstRequest(lib, ttl, secret, mac, k).now);
    hide TokenOf, Header, CacheKey, IntText, Colon;
  }

  lemma BurstKeysDiffer(lib: Library, ttl: nat, secret: string, mac: string, i: nat, j: nat)
    requires i != j
    ensures CacheKey(BurstToken(lib, ttl, secret, mac, i)) != CacheKey(BurstToken(lib, ttl, secret, mac, j))
  {
    var (s, t) := (BurstToken(lib, ttl, secret, mac, i), BurstToken(lib, ttl, secret, mac, j));
    if CacheKey(s) == CacheKey(t) {
      CacheKeyInjective(s, t);
      IntTextInjective(i, j);
    }
  }

  lemma BurstFresh(lib: Library, ttl: nat, secret: string, mac: string)
    requires Lawful(lib) && secret != "" && Bare(mac)
    ensures ClockForward(Burst(lib, ttl, secret, mac)) && FreshTokens(lib, ttl, Burst(lib, ttl, secret, mac))
  {
    var rs := Burst(lib, ttl, secret, mac);
    assert ClockForward(rs);
    hide Timely, KeyOf, BurstRequest, BurstToken, Lawful, Bare;
    forall k | 0 <= k < |rs| ensures Timely(lib, ttl, rs[k]) {
      BurstTokenRead(lib, ttl, secret, mac, k);
    }
    forall i, j | 0 <= i < j < |rs| ensures KeyOf(lib, rs[i]) != KeyOf(lib, rs[j]) {
      BurstTokenRead(lib, ttl, secret, mac, i);
      BurstTokenRead(lib, ttl, secret, mac, j);
      BurstKeysDiffer(lib, ttl, secret, mac, i, j);
    }
  }

  lemma BurstVictim(lib: Library, ttl: nat, secret: string, mac: string)
    requires Lawful(lib) && secret != "" && Bare(mac)
    ensures SignedRight(lib, BurstRequest(lib, ttl, secret, mac, 499))
  {
    var k := 499;
    BurstTokenRead(lib, ttl, secret, mac, k);
    var t := BurstToken(lib, ttl, secret, mac, k);
    assert CacheKey(t) == CacheKey(t.(mac := mac));
    hide TokenOf, CacheKey, Bare, Ascii;
  }

  /** The same token once more, at the end of its time. */
  function BurstRepeat(lib: Library, ttl: nat, secret: string, mac: string): Request {
    BurstRequest(lib, ttl, secret, mac, 499).(now := 4 * ttl + 1)
  }

  lemma RepeatTimely(lib: Library, ttl: nat, secret: string, mac: string)
    requires Lawful(lib) && secret != "" && Bare(mac)
    ensures Timely(lib, ttl, BurstRepeat(lib, ttl, secret, mac))
  {
    var k := 499;
    BurstTokenRead(lib, ttl, secret, mac, k);
    RepeatsKey(lib, BurstRepeat(lib, ttl, secret, mac), BurstRequest(lib, ttl, secret, mac, k));
    hide TokenOf, CacheKey, Bare, Header;
  }

  /** Insertions of which the first part lies too early for any window that reaches the second. */
  lemma TwoPartsPaced(log: seq<Entry>, span: nat, n: nat)
    requires n <= |log| && n <= |log| - n
    requires forall i :: 0 <= i < n ==> log[i].time == 0
    requires forall i :: n <= i < |log| ==> log[i].time > span
    ensures Paced(log, span, |log| - n)
  {
    forall from: int ensures Count(log, Within(from, span)) <= |log| - n {
      var p := Within(from, span);
      assert log == log[..n] + log[n..];
      CountConcat(log[..n], log[n..], p);
      if from <= 0 {
        CountNone(log[n..], p);
      } else {
        CountNone(log[..n], p);
      }
    }
  }

  lemma BurstTimes(lib: Library, ttl: nat, secret: string, mac: string)
    ensures var log := Entries(lib, Burst(lib, ttl, secret, mac));
      && (forall k :: 0 <= k < 499 ==> log[k].time == 0)
      && (forall k :: 499 <= k < |log| ==> log[k].time > 2 * ttl)
  {
    hide KeyOf, Header, BurstToken;
  }

  lemma BurstPaced(lib: Library, ttl: nat, secret: string, mac: string, e: Entry)
    requires e.time > 2 * ttl
    ensures Paced(Entries(lib, Burst(lib, ttl, secret, mac)) + [e], 2 * ttl, 1503)
  {
    BurstTimes(lib, ttl, secret, mac);
    var log := Entries(lib, Burst(lib, ttl, secret, mac));
    hide Entries, Burst, Paced;
    TwoPartsPaced(log + [e], 2 * ttl, 499);
  }

  lemma BurstThenRepeat(lib: Library, ttl: nat, secret: string, mac: string)
    ensures var (rs, r) := (Burst(lib, ttl, secret, mac), BurstRepeat(lib, ttl, secret, mac));
      Repeats(r, rs[499]) && r.now > 2 * ttl && ClockForward(rs + [r])
    ensures Burst(lib, ttl, secret, mac)[499] == BurstRequest(lib, ttl, secret, mac, 499)
  {
    hide BurstToken, Header;
  }

  /** The burst and the repeated token. */
  function BurstRun(lib: Library, ttl: nat, secret: string, mac: string): (rs: seq<Request>)
    ensures |rs| == 2002
  {
    Burst(lib, ttl, secret, mac) + [BurstRepeat(lib, ttl, secret, mac)]
  }

  lemma BurstRunReplays(lib: Library, ttl: nat, secret: string, mac: string)
    requires Lawful(lib) && secret != "" && Bare(mac)
    ensures var (rs, i, j) := (BurstRun(lib, ttl, secret, mac), 499, 2001);
      && ClockForward(rs) && AcceptedAt(lib, ttl, rs, i) && AcceptedAt(lib, ttl, rs, j) && Repeats(rs[j], rs[i])
    ensures Paced(Log(lib, ttl, BurstRun(lib, ttl, secret, mac)), 2 * ttl, 1503)
  {
    var (burst, r) := (Burst(lib, ttl, secret, mac), BurstRepeat(lib, ttl, secret, mac));
    var i := 499;
    assert |burst| == 2001 && i < 500 && i < |burst|;
    assert BurstRun(lib, ttl, secret, mac) == burst + [r];
    hide *;
    BurstFresh(lib, ttl, secret, mac);
    BurstVictim(lib, ttl, secret, mac);
    RepeatTimely(lib, ttl, secret, mac);
    BurstThenRepeat(lib, ttl, secret, mac);
    BurstReplays(lib, ttl, burst, i, r);
    BurstPaced(lib, ttl, secret, mac, Entry(KeyOf(lib, r), r.now));
  }

  predicate Carries(lib: Library, r: Request, mac: string) {
    TokenOf(lib, r).Some? && TokenOf(lib, r).value.mac == mac
  }

  lemma BurstRunOthers(lib: Library, ttl: nat, secret: string, mac: string)
    requires Lawful(lib) && secret != "" && Bare(mac)
    ensures var rs := BurstRun(lib, ttl, secret, mac);
      forall k :: 0 <= k < |rs| && k != 499 && k != 2001 ==> Carries(lib, rs[k], mac)
  {
    var rs := BurstRun(lib, ttl, secret, mac);
    forall k | 0 <= k < |rs| && k != 499 && k != 2001
      ensures Carries(lib, rs[k], mac)
    {
      assert rs[k] == BurstRequest(lib, ttl, secret, mac, k);
      hide TokenOf, BurstRequest, Lawful, Bare, IntText;
      BurstTokenRead(lib, ttl, secret, mac, k);
    }
  }

  /**
   * The bound of NoReplay is sharp. For every time to live and every secret there is a run with at most 1503
   * insertions in any 2*TTL seconds that accepts one token twice, whatever signature all the others carry.
   */
  lemma BoundIsSharp(lib: Library, ttl: nat, secret: string, mac: string) returns (rs: seq<Request>, i: nat, j: nat)
    requires Lawful(lib) && secret != "" && Bare(mac)
    ensures ClockForward(rs) && Paced(Log(lib, ttl, rs), 2 * ttl, 1503)
    ensures i < j < |rs| && AcceptedAt(lib, ttl, rs, i) && AcceptedAt(lib, ttl, rs, j) && Repeats(rs[j], rs[i])
    ensures forall k :: 0 <= k < |rs| && k != i && k != j ==> Carries(lib, rs[k], mac)
  {
    rs, i, j := BurstRun(lib, ttl, secret, mac), 499, 2001;
    assert i < j < |rs|;
    hide *;
    BurstRunReplays(lib, ttl, secret, mac);
    BurstRunOthers(lib, ttl, secret, mac);
  }
}
