/** The loops that look for a free username and a free plan slug. */
module FreshNames {
  import opened AsciiText
  import opened Decimal

  // ---------------------------------------------------------------- pigeonhole

  /** The first `n` candidates, counted from suffix 2. */
  function FirstNames(name: nat -> string, n: nat): (r: set<string>)
    ensures forall k :: 2 <= k < n + 2 ==> name(k) in r
    ensures forall s :: s in r ==> exists k :: 2 <= k < n + 2 && s == name(k)
  {
    if n == 0 then {} else FirstNames(name, n - 1) + {name(n + 1)}
  }

  /** Distinct candidates outnumber a smaller set of taken names. */
  lemma {:induction false} FirstNamesCount(name: nat -> string, n: nat)
    requires forall j, k :: 2 <= j < k < n + 2 ==> name(j) != name(k)
    ensures |FirstNames(name, n)| == n
  {
    if n > 0 {
      FirstNamesCount(name, n - 1);
      var before := FirstNames(name, n - 1);
      assert FirstNames(name, n) == before + {name(n + 1)};
      hide FirstNames;
      assert name(n + 1) !in before;
    }
  }

  lemma {:induction false} SubsetSize(a: set<string>, b: set<string>)
    requires a <= b
    ensures |a| <= |b|
  {
    if a != {} {
      var x :| x in a;
      SubsetSize(a - {x}, b - {x});
    }
  }

  /** Among more distinct candidates than taken names, one is free. */
  lemma OneIsFree(name: nat -> string, taken: set<string>, n: nat) returns (k: nat)
    requires forall j, k :: 2 <= j < k < n + 2 ==> name(j) != name(k)
    requires n > |taken|
    ensures 2 <= k < n + 2 && name(k) !in taken
  {
    FirstNamesCount(name, n);
    if FirstNames(name, n) <= taken {
      SubsetSize(FirstNames(name, n), taken);
    }
    var s :| s in FirstNames(name, n) && s !in taken;
    k :| 2 <= k < n + 2 && s == name(k);
  }

  /** `base` itself when it is free, and otherwise the candidate with the least suffix that is. */
  ghost predicate Picks(base: string, name: nat -> string, taken: set<string>, result: string) {
    if base !in taken then result == base
    else exists k :: 2 <= k && result == name(k) && result !in taken && forall j :: 2 <= j < k ==> name(j) in taken
  }

  lemma PicksUnique(base: string, name: nat -> string, taken: set<string>, a: string, b: string)
    requires Picks(base, name, taken, a) && Picks(base, name, taken, b)
    ensures a == b && a !in taken
  {
    if base in taken {
      var j :| 2 <= j && a == name(j) && a !in taken && forall i :: 2 <= i < j ==> name(i) in taken;
      var k :| 2 <= k && b == name(k) && b !in taken && forall i :: 2 <= i < k ==> name(i) in taken;
      assert !(j < k) && !(k < j);
    }
  }

  // ---------------------------------------------------------------- usernames

  function Numbered(base: string): nat -> string {
    (k: nat) => base + NatText(k)
  }

  lemma NumberedInjective(base: string, j: nat, k: nat)
    requires Numbered(base)(j) == Numbered(base)(k)
    ensures j == k
  {
    assert NatText(j) == (base + NatText(j))[|base|..];
    assert NatText(k) == (base + NatText(k))[|base|..];
    NatTextInjective(j, k);
  }

  lemma NumberedFree(base: string, taken: set<string>) returns (k: nat)
    ensures 2 <= k <= |taken| + 2 && Numbered(base)(k) !in taken
  {
    forall i, j | 2 <= i < j < |taken| + 3 ensures Numbered(base)(i) != Numbered(base)(j) {
      if Numbered(base)(i) == Numbered(base)(j) {
        NumberedInjective(base, i, j);
      }
    }
    k := OneIsFree(Numbered(base), taken, |taken| + 1);
  }

  /** The loop ends on every finite table, with a username nobody holds. */
  method FreshUsername(base: string, taken: set<string>) returns (username: string)
    ensures Picks(base, Numbered(base), taken, username)
    ensures username !in taken && (base !in taken ==> username == base)
    ensures base in taken ==> exists k: nat :: 2 <= k && username == base + NatText(k) && forall j: nat :: 2 <= j < k ==> base + NatText(j) in taken
  {
    username := base;
    if username in taken {
      ghost var limit := NumberedFree(base, taken);
      var i := 2;
      while base + NatText(i) in taken
        invariant 2 <= i <= limit
        invariant forall j :: 2 <= j < i ==> Numbered(base)(j) in taken
        decreases limit - i
      {
        i := i + 1;
      }
      username := base + NatText(i);
      assert username == Numbered(base)(i);
      assert forall j: nat :: 2 <= j < i ==> Numbered(base)(j) == base + NatText(j);
    }
  }

  // ---------------------------------------------------------------- plan slugs

  predicate LowerAlnum(c: char) {
    'a' <= c <= 'z' || '0' <= c <= '9'
  }

  predicate SlugChar(c: char) {
    LowerAlnum(c) || c == '-' || c == '_'
  }

  /** `re.sub("[^...]+", "-", s)`: each run of characters outside the class becomes one dash. */
  function Dashed(s: string, keep: char -> bool): (r: string)
    ensures forall i :: 0 <= i < |r| ==> r[i] == '-' || keep(r[i])
  {
    if s == "" then ""
    else if keep(s[0]) then [s[0]] + Dashed(s[1..], keep)
    else if |s| > 1 && !keep(s[1]) then Dashed(s[1..], keep)
    else "-" + Dashed(s[1..], keep)
  }

  function StripChars(s: string, drop: char -> bool): (r: string)
    ensures forall c :: c in r ==> c in s
  {
    if s != "" && drop(s[0]) then StripChars(s[1..], drop)
    else if s != "" && drop(s[|s| - 1]) then StripChars(s[..|s| - 1], drop)
    else s
  }

  function SlugBase(name: string): (base: string)
    ensures 0 < |base| <= 60
  {
    var s := StripChars(Dashed(Lower(Strip(name)), LowerAlnum), c => c == '-');
    Clip(if s == "" then "plan" else s, 60)
  }

  function ExplicitSlug(raw: string): (slug: string)
    ensures |slug| <= 80
    ensures forall c :: c in slug ==> SlugChar(c)
  {
    var d := Dashed(Lower(Strip(raw)), SlugChar);
    assert forall c :: c in d ==> SlugChar(c);
    var s := StripChars(d, c => c == '-' || c == '_');
    var r := Clip(s, 80);
    assert forall i :: 0 <= i < |r| ==> r[i] == s[i] && s[i] in s;
    r
  }

  function SlugWith(base: string): nat -> string {
    (k: nat) => Clip(base + "-" + NatText(k), 80)
  }

  /** The numbers whose suffix survives the cut to 80 characters: at least all with up to 19 digits. */
  function Room(base: string): (n: nat)
    requires |base| <= 60
  {
    Pow10(79 - |base|)
  }

  lemma SlugInjective(base: string, j: nat, k: nat)
    requires |base| <= 60 && j < Room(base) && k < Room(base)
    requires SlugWith(base)(j) == SlugWith(base)(k)
    ensures j == k
  {
    SlugWhole(base, j);
    SlugWhole(base, k);
    hide SlugWith, NatText;
    assert NatText(j) == (base + "-" + NatText(j))[|base| + 1..];
    assert NatText(k) == (base + "-" + NatText(k))[|base| + 1..];
    NatTextInjective(j, k);
  }

  lemma SlugWhole(base: string, k: nat)
    requires |base| <= 60 && k < Room(base)
    ensures SlugWith(base)(k) == base + "-" + NatText(k)
  {
    hide NatText, Pow10;
    NatTextLength(k, 79 - |base|);
  }

  /** Past that, a suffix is cut back to a shorter one: no new slug ever comes. */
  lemma SlugCut(base: string, k: nat)
    requires |base| <= 60 && k >= Room(base)
    ensures k >= 10 && SlugWith(base)(k) == SlugWith(base)(k / 10)
  {
    NatTextLength(k, 79 - |base|);
    LastDigit(k, base);
    hide NatText, Pow10, LowerChar;
    var (long, short) := (base + "-" + NatText(k), base + "-" + NatText(k / 10));
    var d := NatText(k)[|NatText(k)| - 1];
    assert long == short + [d];
    assert |long| > 80;
    assert Clip(long, 80) == long[..80] && Clip(short, 80) == short[..80];
    assert long[..80] == short[..80];
  }

  lemma LastDigit(k: nat, base: string)
    requires |base| <= 60 && k >= Pow10(79 - |base|)
    ensures k >= 10 && NatText(k) == NatText(k / 10) + [NatText(k)[|NatText(k)| - 1]]
  {
    RoomGrows(1, 79 - |base|);
    assert Pow10(1) == 10 * Pow10(0);
  }

  lemma {:induction false} RoomGrows(m: nat, n: nat)
    requires m <= n
    ensures Pow10(m) <= Pow10(n)
  {
    if m < n {
      RoomGrows(m, n - 1);
    }
  }

  /** So the loop ends exactly when one of the suffixes that survive the cut gives a free slug. */
  lemma SlugAvailableIff(base: string, taken: set<string>)
    requires |base| <= 60
    ensures SlugAvailable(base, taken) <==> exists k :: 2 <= k < Room(base) && SlugWith(base)(k) !in taken
  {
    if SlugAvailable(base, taken) {
      var k :| 2 <= k && SlugWith(base)(k) !in taken;
      RoomGrows(2, 79 - |base|);
      assert Pow10(2) == 10 * Pow10(1) && Pow10(1) == 10 * Pow10(0);
      SlugDescends(base, taken, k);
    }
  }

  lemma {:induction false} SlugDescends(base: string, taken: set<string>, k: nat)
    requires |base| <= 60 && Room(base) >= 100 && 2 <= k && SlugWith(base)(k) !in taken
    ensures exists i :: 2 <= i < Room(base) && SlugWith(base)(i) !in taken
  {
    hide SlugWith;
    if k >= Room(base) {
      SlugCut(base, k);
      SlugDescends(base, taken, k / 10);
    }
  }

  /** A table with fewer slugs than surviving suffixes always leaves one free. */
  lemma SlugFree(base: string, taken: set<string>) returns (k: nat)
    requires |base| <= 60 && |taken| + 2 < Room(base)
    ensures 2 <= k <= |taken| + 2 && SlugWith(base)(k) !in taken
  {
    forall i, j | 2 <= i < j < |taken| + 3 ensures SlugWith(base)(i) != SlugWith(base)(j) {
      if SlugWith(base)(i) == SlugWith(base)(j) {
        SlugInjective(base, i, j);
      }
    }
    k := OneIsFree(SlugWith(base), taken, |taken| + 1);
  }

  /** What the slug loop needs in order to end: some suffix whose slug is free. */
  ghost predicate SlugAvailable(base: string, taken: set<string>) {
    exists k :: 2 <= k && SlugWith(base)(k) !in taken
  }

  method GeneratedSlug(name: string, taken: set<string>) returns (slug: string)
    requires SlugBase(name) in taken ==> SlugAvailable(SlugBase(name), taken)
    ensures Picks(SlugBase(name), SlugWith(SlugBase(name)), taken, slug)
    ensures slug !in taken && (SlugBase(name) !in taken ==> slug == SlugBase(name))
    ensures SlugBase(name) in taken ==> exists k: nat :: 2 <= k && slug == Clip(SlugBase(name) + "-" + NatText(k), 80)
  {
    hide SlugBase, NatText, Pow10;
    var base := SlugBase(name);
    ghost var limit := 2;
    if base in taken {
      limit :| 2 <= limit && SlugWith(base)(limit) !in taken;
    }
    slug := base;
    var suffix := 2;
    while slug in taken
      invariant 2 <= suffix <= limit + 1
      invariant suffix > 2 ==> base in taken
      invariant slug == if suffix == 2 then base else SlugWith(base)(suffix - 1)
      invariant forall j :: 2 <= j < suffix - 1 ==> SlugWith(base)(j) in taken
      decreases limit + 1 - suffix
    {
      slug := Clip(base + "-" + NatText(suffix), 80);
      assert slug == SlugWith(base)(suffix);
      suffix := suffix + 1;
    }
    assert suffix > 2 ==> slug == SlugWith(base)(suffix - 1);
  }

  /** Any table of fewer than 10^19 - 2 slugs is small enough. */
  lemma SmallTableLeavesSlug(base: string, taken: set<string>)
    requires |base| <= 60 && |taken| + 2 < Pow10(19)
    ensures SlugAvailable(base, taken)
  {
    RoomGrows(19, 79 - |base|);
    var k := SlugFree(base, taken);
  }

  /** `_plan_slug`: the posted slug, else the slug the plan has, else a generated one. */
  method PlanSlug(planSlug: string, planName: string, rawSlug: string, taken: set<string>) returns (slug: string)
    requires |taken| + 2 < Pow10(19)
    ensures Strip(rawSlug) != "" ==> slug == ExplicitSlug(rawSlug)
    ensures Strip(rawSlug) == "" && planSlug != "" ==> slug == planSlug
    ensures Strip(rawSlug) == "" && planSlug == "" ==>
      slug !in taken && Picks(SlugBase(planName), SlugWith(SlugBase(planName)), taken, slug)
  {
    hide SlugBase, Pow10, Picks, SlugAvailable, ExplicitSlug;
    if Strip(rawSlug) != "" {
      return ExplicitSlug(rawSlug);
    }
    if planSlug != "" {
      return planSlug;
    }
    SmallTableLeavesSlug(SlugBase(planName), taken);
    slug := GeneratedSlug(planName, taken);
  }

  // ---------------------------------------------------------------- what a slug is made of

  predicate All(s: string, p: char -> bool) {
    forall i :: 0 <= i < |s| ==> p(s[i])
  }

  lemma {:induction false} DashedKeeps(s: string, rest: string, keep: char -> bool)
    requires All(s, keep)
    ensures Dashed(s + rest, keep) == s + Dashed(rest, keep)
  {
    if s == "" {
      assert s + rest == rest;
    } else {
      DashedKeeps(s[1..], rest, keep);
      assert (s + rest)[1..] == s[1..] + rest;
      assert s == [s[0]] + s[1..];
    }
  }

  /** A run of other characters becomes one dash, and what is kept stays. */
  lemma {:induction false} DashedRun(gap: string, rest: string, keep: char -> bool)
    requires gap != "" && All(gap, c => !keep(c)) && (rest != "" ==> keep(rest[0]))
    ensures Dashed(gap + rest, keep) == "-" + Dashed(rest, keep)
  {
    assert (gap + rest)[1..] == gap[1..] + rest;
    if |gap| > 1 {
      DashedRun(gap[1..], rest, keep);
    } else {
      assert (gap + rest)[1..] == rest;
    }
  }

  lemma StripNothing(s: string, drop: char -> bool)
    requires s != "" ==> !drop(s[0]) && !drop(s[|s| - 1])
    ensures StripChars(s, drop) == s
  {
  }

  predicate Word(s: string) {
    s != "" && All(s, LowerAlnum)
  }

  lemma TidyText(s: string)
    requires s != "" && LowerAlnum(s[0]) && LowerAlnum(s[|s| - 1]) && forall i :: 0 <= i < |s| ==> !('A' <= s[i] <= 'Z')
    ensures Lower(Strip(s)) == s
  {
    assert TrimLeft(s) == s && TrimRight(s) == s;
  }

  lemma DashedWords(a: string, gap: string, b: string, keep: char -> bool)
    requires All(a, keep) && All(b, keep) && b != "" && gap != "" && All(gap, c => !keep(c))
    ensures Dashed(a + (gap + b), keep) == a + ("-" + b)
  {
    DashedKeeps(a, gap + b, keep);
    assert keep(b[0]);
    DashedRun(gap, b, keep);
    DashedKeeps(b, "", keep);
    assert b + "" == b && Dashed("", keep) == "";
  }

  lemma SlugBaseIs(name: string, s: string)
    requires s != "" && |s| <= 60 && s == StripChars(Dashed(Lower(Strip(name)), LowerAlnum), c => c == '-')
    ensures SlugBase(name) == s
  {
    hide StripChars, Dashed, Strip;
  }

  /** The slug of two words in lower case, whatever stands between them but letters and digits, is the words with one dash. */
  lemma TwoWordSlug(a: string, gap: string, b: string)
    requires Word(a) && Word(b) && gap != "" && |a| + |b| < 60
    requires forall i :: 0 <= i < |gap| ==> !LowerAlnum(gap[i]) && !('A' <= gap[i] <= 'Z')
    ensures SlugBase(a + (gap + b)) == a + ("-" + b)
  {
    var (name, d) := (a + (gap + b), a + ("-" + b));
    hide SlugBase, Dashed, StripChars, Strip, Lower;
    assert name[0] == a[0] && name[|name| - 1] == b[|b| - 1];
    assert d[0] == a[0] && d[|d| - 1] == b[|b| - 1];
    TidyText(name);
    DashedWords(a, gap, b, LowerAlnum);
    StripNothing(d, c => c == '-');
    SlugBaseIs(name, d);
  }

  /** A posted slug of allowed characters, with a letter or digit at both ends and no more than 80 of them, is taken as it is. */
  lemma PostedSlugKept(raw: string)
    requires raw != "" && |raw| <= 80 && All(raw, SlugChar) && LowerAlnum(raw[0]) && LowerAlnum(raw[|raw| - 1])
    ensures ExplicitSlug(raw) == raw
  {
    TidyText(raw);
    DashedKeeps(raw, "", SlugChar);
    assert raw + "" == raw && Dashed("", SlugChar) == "";
    StripNothing(raw, c => c == '-' || c == '_');
  }
}
