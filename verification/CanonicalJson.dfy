/** The canonical message of a signed bridge response: compact JSON with sorted keys. */
module CanonicalJson {
  import opened AsciiText
  import opened Decimal
  import opened Sorting

  // ---------------------------------------------------------------- values

  /** A Python value as `json.dumps` receives it: a dict keeps its insertion order. */
  datatype Value =
    | None
    | Bool(b: bool)
    | Int(n: int)
    | Str(s: string)
    | List(items: seq<Value>)
    | Dict(fields: seq<Field>)

  datatype Field = Field(key: string, value: Value)

  /** The JSON value: a dict is a finite map, and a boolean is not a number. */
  datatype Json =
    | JNull
    | JBool(b: bool)
    | JInt(n: int)
    | JStr(s: string)
    | JList(items: seq<Json>)
    | JDict(members: map<string, Json>)

  /** No dict, at any depth, holds a key twice. */
  predicate Proper(v: Value) {
    match v
    case List(items) => forall i :: 0 <= i < |items| ==> Proper(items[i])
    case Dict(fields) => DistinctKeys(fields) && forall i :: 0 <= i < |fields| ==> Proper(fields[i].value)
    case _ => true
  }

  predicate DistinctKeys(fields: seq<Field>) {
    forall i, j :: 0 <= i < j < |fields| ==> fields[i].key != fields[j].key
  }

  function Meaning(v: Value): Json {
    match v
    case None => JNull
    case Bool(b) => JBool(b)
    case Int(n) => JInt(n)
    case Str(s) => JStr(s)
    case List(items) => JList(ItemsMeaning(items))
    case Dict(fields) => JDict(FieldsMeaning(fields))
  }

  function ItemsMeaning(items: seq<Value>): (js: seq<Json>)
    ensures |js| == |items|
  {
    if items == [] then [] else [Meaning(items[0])] + ItemsMeaning(items[1..])
  }

  /** A later pair with the same key wins, as in a dict display or `json.loads`. */
  function FieldsMeaning(fields: seq<Field>): (m: map<string, Json>)
  {
    if fields == [] then map[]
    else map[fields[0].key := Meaning(fields[0].value)] + FieldsMeaning(fields[1..])
  }

  // ---------------------------------------------------------------- printer

  function HexDigit(d: nat): (c: char)
    requires d < 16
  {
    if d < 10 then DigitChar(d) else (d + 87) as char
  }

  /** Python's `ESCAPE_DCT` with `ensure_ascii=False`. */
  function EscapeChar(c: char): string {
    if c == '"' then "\\\""
    else if c == '\\' then "\\\\"
    else if c == '\n' then "\\n"
    else if c == '\r' then "\\r"
    else if c == '\t' then "\\t"
    else if c as int == 8 then "\\b"
    else if c as int == 12 then "\\f"
    else if c as int < 32 then "\\u00" + [HexDigit(c as int / 16), HexDigit(c as int % 16)]
    else [c]
  }

  function Escape(s: string): string {
    if s == "" then "" else EscapeChar(s[0]) + Escape(s[1..])
  }

  function Quote(s: string): string {
    "\"" + Escape(s) + "\""
  }

  /** `json.dumps(v, ensure_ascii=False, separators=(",", ":"))`. */
  function Render(v: Value): (text: string)
    ensures |text| > 0
  {
    match v
    case None => "null"
    case Bool(b) => if b then "true" else "false"
    case Int(n) => IntText(n)
    case Str(s) => Quote(s)
    case List(items) => "[" + RenderItems(items) + "]"
    case Dict(fields) => "{" + RenderFields(fields) + "}"
  }

  function RenderItems(items: seq<Value>): string {
    if items == [] then ""
    else if |items| == 1 then Render(items[0])
    else Render(items[0]) + "," + RenderItems(items[1..])
  }

  function RenderField(f: Field): string {
    Quote(f.key) + ":" + Render(f.value)
  }

  function RenderFields(fields: seq<Field>): string {
    if fields == [] then ""
    else if |fields| == 1 then RenderField(fields[0])
    else RenderField(fields[0]) + "," + RenderFields(fields[1..])
  }

  // ---------------------------------------------------------------- parser

  datatype Parsed<T> = Fail | Done(value: T, rest: string)

  function Unescape(c: char): Parsed<char> {
    if c == '"' || c == '\\' || c == '/' then Done(c, "")
    else if c == 'n' then Done('\n', "")
    else if c == 'r' then Done('\r', "")
    else if c == 't' then Done('\t', "")
    else if c == 'b' then Done(8 as char, "")
    else if c == 'f' then Done(12 as char, "")
    else Fail
  }

  /** The value of a lower- or upper-case hex digit, or -1. */
  function HexValue(c: char): (d: int)
    ensures -1 <= d < 16
  {
    if IsDigit(c) then DigitValue(c)
    else if 'a' <= c <= 'f' then c as int - 87
    else if 'A' <= c <= 'F' then c as int - 55
    else -1
  }

  function HexChar(s: string): Parsed<char>
    requires |s| == 4
  {
    var (a, b, c, d) := (HexValue(s[0]), HexValue(s[1]), HexValue(s[2]), HexValue(s[3]));
    var code := 4096 * a + 256 * b + 16 * c + d;
    if a < 0 || b < 0 || c < 0 || d < 0 || 0xD800 <= code < 0xE000 then Fail else Done(code as char, "")
  }

  function Prepend(c: char, p: Parsed<string>): Parsed<string> {
    if p.Fail? then Fail else Done([c] + p.value, p.rest)
  }

  /** The body of a string literal, after its opening quote. */
  function ParseString(s: string): (p: Parsed<string>)
    ensures p.Done? ==> |p.rest| < |s|
  {
    if s == "" then Fail
    else if s[0] == '"' then Done("", s[1..])
    else if s[0] == '\\' then
      if |s| >= 6 && s[1] == 'u' then
        var c := HexChar(s[2..6]);
        if c.Fail? then Fail else Prepend(c.value, ParseString(s[6..]))
      else if |s| >= 2 then
        var c := Unescape(s[1]);
        if c.Fail? then Fail else Prepend(c.value, ParseString(s[2..]))
      else Fail
    else if s[0] as int < 32 then Fail
    else Prepend(s[0], ParseString(s[1..]))
  }

  /** How many digits `s` starts with. */
  function DigitRun(s: string): (n: nat)
    ensures n <= |s| && AllDigits(s[..n])
    ensures n < |s| ==> !IsDigit(s[n])
  {
    if s == "" || !IsDigit(s[0]) then 0 else 1 + DigitRun(s[1..])
  }

  function ParseNumber(s: string): (p: Parsed<Json>)
    ensures p.Done? ==> |p.rest| < |s|
  {
    var negative := s != "" && s[0] == '-';
    var t := if negative then s[1..] else s;
    var n := DigitRun(t);
    if n == 0 then Fail
    else
      var magnitude: int := NatValue(t[..n]);
      Done(JInt(if negative then -magnitude else magnitude), t[n..])
  }

  function ParseWord(word: string, value: Json, s: string): (p: Parsed<Json>)
    requires word != ""
    ensures p.Done? ==> |p.rest| < |s|
  {
    if word <= s then Done(value, s[|word|..]) else Fail
  }

  function ParseValue(s: string): (p: Parsed<Json>)
    ensures p.Done? ==> |p.rest| < |s|
    decreases |s|, 1
  {
    if s == "" then Fail
    else if s[0] == 'n' then ParseWord("null", JNull, s)
    else if s[0] == 't' then ParseWord("true", JBool(true), s)
    else if s[0] == 'f' then ParseWord("false", JBool(false), s)
    else if s[0] == '"' then
      var p := ParseString(s[1..]);
      if p.Fail? then Fail else Done(JStr(p.value), p.rest)
    else if s[0] == '[' then
      if |s| > 1 && s[1] == ']' then Done(JList([]), s[2..])
      else
        var p := ParseItems(s[1..]);
        if p.Fail? then Fail else Done(JList(p.value), p.rest)
    else if s[0] == '{' then
      if |s| > 1 && s[1] == '}' then Done(JDict(map[]), s[2..])
      else
        var p := ParseFields(s[1..]);
        if p.Fail? then Fail else Done(JDict(p.value), p.rest)
    else ParseNumber(s)
  }

  /** One or more values separated by commas, up to the closing bracket. */
  function ParseItems(s: string): (p: Parsed<seq<Json>>)
    ensures p.Done? ==> |p.rest| < |s|
    decreases |s|, 2
  {
    var first := ParseValue(s);
    if first.Fail? || first.rest == "" then Fail
    else if first.rest[0] == ']' then Done([first.value], first.rest[1..])
    else if first.rest[0] == ',' then
      var others := ParseItems(first.rest[1..]);
      if others.Fail? then Fail else Done([first.value] + others.value, others.rest)
    else Fail
  }

  function ParseField(s: string): (p: Parsed<(string, Json)>)
    ensures p.Done? ==> |p.rest| < |s|
    decreases |s|, 2
  {
    if s == "" || s[0] != '"' then Fail
    else
      var key := ParseString(s[1..]);
      if key.Fail? || key.rest == "" || key.rest[0] != ':' then Fail
      else
        var value := ParseValue(key.rest[1..]);
        if value.Fail? then Fail else Done((key.value, value.value), value.rest)
  }

  /** One or more `"key":value` pairs, up to the closing brace; a repeated key keeps its last value. */
  function ParseFields(s: string): (p: Parsed<map<string, Json>>)
    ensures p.Done? ==> |p.rest| < |s|
    decreases |s|, 3
  {
    var first := ParseField(s);
    if first.Fail? || first.rest == "" then Fail
    else
      var one := map[first.value.0 := first.value.1];
      if first.rest[0] == '}' then Done(one, first.rest[1..])
      else if first.rest[0] == ',' then
        var others := ParseFields(first.rest[1..]);
        if others.Fail? then Fail else Done(one + others.value, others.rest)
      else Fail
  }

  // ---------------------------------------------------------------- the parser inverts the printer

  lemma ParseEscapedChar(c: char, tail: string)
    ensures ParseString(EscapeChar(c) + tail) == Prepend(c, ParseString(tail))
  {
    var head, text := EscapeChar(c), EscapeChar(c) + tail;
    assert text[|head|..] == tail;
    if |head| == 6 {
      ParseHexEscape(c);
      assert text[2..6] == head[2..];
    } else if |head| == 2 {
      assert Unescape(head[1]) == Done(c, "");
    }
  }

  lemma ParseHexEscape(c: char)
    requires |EscapeChar(c)| == 6
    ensures EscapeChar(c)[..2] == "\\u" && HexChar(EscapeChar(c)[2..]) == Done(c, "")
  {
    var code := c as int;
    assert HexValue(HexDigit(code / 16)) == code / 16;
    assert HexValue(HexDigit(code % 16)) == code % 16;
  }

  lemma {:induction false} ParseEscaped(s: string, rest: string)
    ensures ParseString(Escape(s) + "\"" + rest) == Done(s, rest)
  {
    hide EscapeChar;
    var closing := "\"" + rest;
    assert Escape(s) + "\"" + rest == Escape(s) + closing;
    if s == "" {
      assert closing[1..] == rest;
    } else {
      hide ParseString;
      assert s == [s[0]] + s[1..];
      ParseEscaped(s[1..], rest);
      assert Escape(s) + closing == EscapeChar(s[0]) + (Escape(s[1..]) + "\"" + rest);
      ParseEscapedChar(s[0], Escape(s[1..]) + "\"" + rest);
    }
  }

  /** What may follow a value: the end of the text, or a character no numeral goes on with. */
  predicate Delimited(rest: string) {
    rest == "" || !IsDigit(rest[0])
  }

  lemma {:induction false} DigitRunExact(digits: string, rest: string)
    requires AllDigits(digits) && Delimited(rest)
    ensures DigitRun(digits + rest) == |digits|
  {
    if digits == "" {
      assert digits + rest == rest;
    } else {
      assert (digits + rest)[1..] == digits[1..] + rest;
      DigitRunExact(digits[1..], rest);
    }
  }

  lemma ParseNat(n: nat, rest: string)
    requires Delimited(rest)
    ensures var t := NatText(n) + rest;
      DigitRun(t) == |NatText(n)| && NatText(n) <= t && t[|NatText(n)|..] == rest
  {
    DigitRunExact(NatText(n), rest);
  }

  /** A numeral with or without its sign, given where its digits end and what they are worth. */
  lemma ParseSigned(negative: bool, t: string, digits: string)
    requires digits != "" && AllDigits(digits) && digits <= t && DigitRun(t) == |digits|
    ensures ParseNumber((if negative then "-" else "") + t) ==
      Done(JInt(if negative then -(NatValue(digits) as int) else NatValue(digits)), t[|digits|..])
  {
    hide DigitRun, NatValue;
    var s := (if negative then "-" else "") + t;
    assert t[..|digits|] == digits;
    assert t[0] == digits[0] && IsDigit(digits[0]);
    assert s == if negative then ['-'] + t else t;
    assert negative ==> s[1..] == t;
  }

  lemma IntTextParts(n: int, rest: string)
    ensures IntText(n) + rest == (if n < 0 then "-" else "") + (NatText(if n < 0 then -n else n) + rest)
    ensures var c := (IntText(n) + rest)[0]; c == '-' || IsDigit(c)
  {
    var text := NatText(if n < 0 then -n else n);
    assert IsDigit(text[0]);
    hide NatText;
    assert IntText(n) == (if n < 0 then "-" else "") + text;
  }

  lemma ParseInt(n: int, rest: string)
    requires Delimited(rest)
    ensures ParseValue(IntText(n) + rest) == Done(JInt(n), rest)
  {
    hide *;
    var magnitude := if n < 0 then -n else n;
    ParseNat(magnitude, rest);
    NatValueOfText(magnitude);
    IntTextParts(n, rest);
    ParseSigned(n < 0, NatText(magnitude) + rest, NatText(magnitude));
    NumberIsValue(IntText(n) + rest);
  }

  lemma NumberIsValue(s: string)
    requires s != "" && (s[0] == '-' || IsDigit(s[0]))
    ensures ParseValue(s) == ParseNumber(s)
  {
    hide ParseNumber, ParseWord, ParseItems, ParseFields, ParseString;
  }

  lemma {:induction false} ParseRendered(v: Value, rest: string)
    requires Delimited(rest)
    ensures ParseValue(Render(v) + rest) == Done(Meaning(v), rest)
    decreases v, 1
  {
    hide ParseString, Escape, ParseItems, ParseFields, RenderItems, RenderFields, ParseNumber, IntText;
    hide ItemsMeaning, FieldsMeaning;
    var s := Render(v) + rest;
    match v
    case None => assert s[4..] == rest;
    case Bool(b) => assert s[if b then 4 else 5..] == rest;
    case Int(n) => ParseInt(n, rest);
    case Str(t) =>
      assert s[1..] == Escape(t) + "\"" + rest;
      ParseEscaped(t, rest);
    case List(items) => ParseRenderedList(items, rest);
    case Dict(fields) => ParseRenderedDict(fields, rest);
  }

  lemma RenderStart(v: Value)
    ensures Render(v)[0] != ']'
  {
    if v.Int? {
      assert v.n >= 0 ==> IsDigit(NatText(v.n)[0]);
    }
  }

  lemma {:induction false} ParseRenderedList(items: seq<Value>, rest: string)
    ensures ParseValue("[" + RenderItems(items) + "]" + rest) == Done(JList(ItemsMeaning(items)), rest)
    decreases items, 4
  {
    hide ParseItems, Render;
    var s := "[" + RenderItems(items) + "]" + rest;
    if items == [] {
      assert s[2..] == rest;
    } else {
      ParseRenderedItems(items, rest);
      assert s[1..] == RenderItems(items) + "]" + rest;
      RenderStart(items[0]);
      assert s[1] == RenderItems(items)[0] == Render(items[0])[0];
    }
  }

  lemma {:induction false} ParseRenderedItems(items: seq<Value>, rest: string)
    requires items != []
    ensures ParseItems(RenderItems(items) + "]" + rest) == Done(ItemsMeaning(items), rest)
    decreases items, 3
  {
    hide ParseValue, Render, Meaning;
    var after := if |items| == 1 then "]" + rest else "," + (RenderItems(items[1..]) + "]" + rest);
    assert RenderItems(items) + "]" + rest == Render(items[0]) + after by {
      hide ParseItems;
    }
    hide RenderItems;
    ParseRendered(items[0], after);
    if |items| == 1 {
      assert after[1..] == rest && ItemsMeaning(items) == [Meaning(items[0])];
    } else {
      assert after[1..] == RenderItems(items[1..]) + "]" + rest;
      ParseRenderedItems(items[1..], rest);
    }
  }

  lemma {:induction false} ParseRenderedDict(fields: seq<Field>, rest: string)
    ensures ParseValue("{" + RenderFields(fields) + "}" + rest) == Done(JDict(FieldsMeaning(fields)), rest)
    decreases fields, 4
  {
    hide ParseFields, Render, Escape;
    var s := "{" + RenderFields(fields) + "}" + rest;
    if fields == [] {
      assert s[2..] == rest;
    } else {
      ParseRenderedFields(fields, rest);
      assert s[1..] == RenderFields(fields) + "}" + rest;
      assert s[1] == RenderFields(fields)[0] == '"';
    }
  }

  lemma {:induction false} ParseRenderedFields(fields: seq<Field>, rest: string)
    requires fields != []
    ensures ParseFields(RenderFields(fields) + "}" + rest) == Done(FieldsMeaning(fields), rest)
    decreases fields, 3
  {
    hide ParseField, RenderField, Meaning;
    var after := if |fields| == 1 then "}" + rest else "," + (RenderFields(fields[1..]) + "}" + rest);
    assert RenderFields(fields) + "}" + rest == RenderField(fields[0]) + after by {
      hide ParseFields;
    }
    hide RenderFields;
    ParseRenderedField(fields[0], after);
    if |fields| == 1 {
      assert after[1..] == rest;
      assert FieldsMeaning(fields) == map[fields[0].key := Meaning(fields[0].value)];
    } else {
      assert after[1..] == RenderFields(fields[1..]) + "}" + rest;
      ParseRenderedFields(fields[1..], rest);
    }
  }

  lemma {:induction false} ParseRenderedField(f: Field, rest: string)
    requires Delimited(rest)
    ensures ParseField(RenderField(f) + rest) == Done((f.key, Meaning(f.value)), rest)
    decreases f, 2
  {
    hide ParseString, Escape, ParseValue, Render, Meaning;
    var s := RenderField(f) + rest;
    var after := ":" + Render(f.value) + rest;
    assert s[1..] == Escape(f.key) + "\"" + after;
    ParseEscaped(f.key, after);
    assert after[1..] == Render(f.value) + rest;
    ParseRendered(f.value, rest);
  }

  // ---------------------------------------------------------------- sort_keys

  predicate KeyBefore(f: Field, g: Field) {
    Precedes(f.key, g.key)
  }

  lemma KeyBeforeStrict()
    ensures StrictOrder(KeyBefore)
  {
    forall f, g | KeyBefore(f, g) ensures !KeyBefore(g, f) {
      PrecedesAsymmetric(f.key, g.key);
    }
    forall f, g, h | KeyBefore(f, g) && KeyBefore(g, h) ensures KeyBefore(f, h) {
      PrecedesTransitive(f.key, g.key, h.key);
    }
  }

  /** The dict order `sort_keys=True` prints, at every depth. */
  function SortKeys(v: Value): Value {
    match v
    case List(items) => List(SortItems(items))
    case Dict(fields) => Dict(Sort(KeyBefore, SortValues(fields)))
    case _ => v
  }

  function SortItems(items: seq<Value>): (r: seq<Value>)
    ensures |r| == |items| && forall i :: 0 <= i < |r| ==> r[i] == SortKeys(items[i])
  {
    if items == [] then [] else [SortKeys(items[0])] + SortItems(items[1..])
  }

  function SortValues(fields: seq<Field>): (r: seq<Field>)
    ensures |r| == |fields|
    ensures forall i :: 0 <= i < |r| ==> r[i] == Field(fields[i].key, SortKeys(fields[i].value))
  {
    if fields == [] then []
    else [Field(fields[0].key, SortKeys(fields[0].value))] + SortValues(fields[1..])
  }

  // ---------------------------------------------------------------- sorting keeps the meaning

  lemma {:induction false} FieldsMeaningAt(fields: seq<Field>)
    requires DistinctKeys(fields)
    ensures FieldsMeaning(fields).Keys == set f | f in fields :: f.key
    ensures forall f :: f in fields ==> f.key in FieldsMeaning(fields) && FieldsMeaning(fields)[f.key] == Meaning(f.value)
  {
    hide Meaning;
    if fields != [] {
      assert fields == [fields[0]] + fields[1..];
      FieldsMeaningAt(fields[1..]);
    }
  }

  lemma SortedDistinct(fields: seq<Field>)
    requires Sorted(KeyBefore, fields)
    ensures DistinctKeys(fields)
  {
    forall i, j | 0 <= i < j < |fields| ensures fields[i].key != fields[j].key {
      assert KeyBefore(fields[i], fields[j]);
      PrecedesAsymmetric(fields[i].key, fields[j].key);
    }
  }

  lemma {:induction false} SortKeysMeaning(v: Value)
    requires Proper(v)
    ensures Meaning(SortKeys(v)) == Meaning(v)
  {
    match v
    case List(items) =>
      forall i | 0 <= i < |items| ensures Meaning(SortKeys(items[i])) == Meaning(items[i]) {
        SortKeysMeaning(items[i]);
      }
      ItemsMeaningAt(items);
      ItemsMeaningAt(SortItems(items));
    case Dict(fields) =>
      forall i | 0 <= i < |fields| ensures Meaning(SortKeys(fields[i].value)) == Meaning(fields[i].value) {
        SortKeysMeaning(fields[i].value);
      }
      SortedFieldsMeaning(fields);
    case _ =>
  }

  lemma {:induction false} ItemsMeaningAt(items: seq<Value>)
    ensures forall i :: 0 <= i < |items| ==> ItemsMeaning(items)[i] == Meaning(items[i])
  {
    hide Meaning;
    if items != [] {
      ItemsMeaningAt(items[1..]);
    }
  }

  /** The fields a dict is printed with: each value sorted, then the pairs sorted by key. */
  function Printed(fields: seq<Field>): seq<Field> {
    Sort(KeyBefore, SortValues(fields))
  }

  lemma PrintedSorted(fields: seq<Field>)
    requires DistinctKeys(fields)
    ensures Sorted(KeyBefore, Printed(fields)) && DistinctKeys(Printed(fields))
    ensures forall f :: f in Printed(fields) <==>
      exists i :: 0 <= i < |fields| && f == Field(fields[i].key, SortKeys(fields[i].value))
  {
    hide SortKeys, Sort, Precedes;
    var values := SortValues(fields);
    forall i, j | 0 <= i < j < |values| ensures KeyBefore(values[i], values[j]) || KeyBefore(values[j], values[i]) {
      if !Precedes(values[i].key, values[j].key) {
        PrecedesTotal(values[i].key, values[j].key);
      }
    }
    KeyBeforeStrict();
    SortSorted(KeyBefore, values);
    SortedDistinct(Printed(fields));
  }

  lemma SortedFieldsMeaning(fields: seq<Field>)
    requires DistinctKeys(fields)
    requires forall i :: 0 <= i < |fields| ==> Meaning(SortKeys(fields[i].value)) == Meaning(fields[i].value)
    ensures FieldsMeaning(Printed(fields)) == FieldsMeaning(fields)
  {
    hide *;
    PrintedSorted(fields);
    FieldsMeaningAt(Printed(fields));
    FieldsMeaningAt(fields);
    var p, q := FieldsMeaning(Printed(fields)), FieldsMeaning(fields);
    forall k | k in q.Keys ensures k in p.Keys && p[k] == q[k] {
      var i :| 0 <= i < |fields| && fields[i].key == k;
      assert Field(k, SortKeys(fields[i].value)) in Printed(fields);
    }
    forall k | k in p.Keys ensures k in q.Keys {
      var f :| f in Printed(fields) && f.key == k;
    }
  }

  // ---------------------------------------------------------------- the printed order is canonical

  lemma {:induction false} SameMeaningSameSorted(v: Value, w: Value)
    requires Proper(v) && Proper(w) && Meaning(v) == Meaning(w)
    ensures SortKeys(v) == SortKeys(w)
    decreases v
  {
    match v
    case List(items) =>
      ItemsMeaningAt(items);
      ItemsMeaningAt(w.items);
      assert |items| == |w.items|;
      forall i | 0 <= i < |items| ensures SortKeys(items[i]) == SortKeys(w.items[i]) {
        assert Meaning(items[i]) == ItemsMeaning(items)[i];
        SameMeaningSameSorted(items[i], w.items[i]);
      }
      assert SortItems(items) == SortItems(w.items);
    case Dict(fields) =>
      FieldsMeaningAt(fields);
      FieldsMeaningAt(w.fields);
      forall i, j | 0 <= i < |fields| && 0 <= j < |w.fields| && fields[i].key == w.fields[j].key
        ensures SortKeys(fields[i].value) == SortKeys(w.fields[j].value)
      {
        assert fields[i] in fields && w.fields[j] in w.fields;
        SameMeaningSameSorted(fields[i].value, w.fields[j].value);
      }
      SamePrinted(fields, w.fields);
    case _ =>
  }

  lemma SamePrinted(a: seq<Field>, b: seq<Field>)
    requires DistinctKeys(a) && DistinctKeys(b)
    requires FieldsMeaning(a).Keys == FieldsMeaning(b).Keys
    requires forall i, j :: 0 <= i < |a| && 0 <= j < |b| && a[i].key == b[j].key ==>
      SortKeys(a[i].value) == SortKeys(b[j].value)
    ensures Printed(a) == Printed(b)
  {
    hide SortKeys;
    PrintedSorted(a);
    PrintedSorted(b);
    PrintedSubset(a, b);
    PrintedSubset(b, a);
    KeyBeforeStrict();
    SortedUnique(KeyBefore, Printed(a), Printed(b));
  }

  lemma PrintedSubset(a: seq<Field>, b: seq<Field>)
    requires DistinctKeys(a) && DistinctKeys(b)
    requires FieldsMeaning(a).Keys == FieldsMeaning(b).Keys
    requires forall i, j :: 0 <= i < |a| && 0 <= j < |b| && a[i].key == b[j].key ==>
      SortKeys(a[i].value) == SortKeys(b[j].value)
    ensures forall f :: f in Printed(a) ==> f in Printed(b)
  {
    hide SortKeys;
    PrintedSorted(a);
    PrintedSorted(b);
    FieldsMeaningAt(a);
    FieldsMeaningAt(b);
    hide Printed, FieldsMeaning;
    forall f | f in Printed(a) ensures f in Printed(b) {
      var i :| 0 <= i < |a| && f == Field(a[i].key, SortKeys(a[i].value));
      assert a[i] in a;
      var j :| 0 <= j < |b| && b[j].key == a[i].key;
    }
  }

  // ---------------------------------------------------------------- the printer as a whole

  /** `json.dumps(v, ensure_ascii=False, separators=(",", ":"), sort_keys=True)`. */
  function Dumps(v: Value): string {
    Render(SortKeys(v))
  }

  /** Reading the printed text gives back the value, and nothing is left over. */
  lemma DumpsRoundTrip(v: Value)
    requires Proper(v)
    ensures ParseValue(Dumps(v)) == Done(Meaning(v), "")
  {
    ParseRendered(SortKeys(v), "");
    assert Dumps(v) + "" == Dumps(v);
    SortKeysMeaning(v);
  }

  /** Two values print alike exactly when they are equal as JSON values; insertion order never shows. */
  lemma DumpsFaithful(v: Value, w: Value)
    requires Proper(v) && Proper(w)
    ensures Dumps(v) == Dumps(w) <==> Meaning(v) == Meaning(w)
  {
    DumpsRoundTrip(v);
    DumpsRoundTrip(w);
    if Meaning(v) == Meaning(w) {
      SameMeaningSameSorted(v, w);
    }
  }

  // ---------------------------------------------------------------- the text, written out

  /** In every dict, at any depth, each key comes before the next ones. */
  ghost predicate InKeyOrder(v: Value) {
    match v
    case List(items) => forall i :: 0 <= i < |items| ==> InKeyOrder(items[i])
    case Dict(fields) =>
      && (forall i, j :: 0 <= i < j < |fields| ==> ComesBefore(fields[i].key, fields[j].key))
      && (forall i :: 0 <= i < |fields| ==> InKeyOrder(fields[i].value))
    case _ => true
  }

  lemma {:induction false} SortKeysInOrder(v: Value)
    requires Proper(v)
    ensures InKeyOrder(SortKeys(v))
  {
    match v
    case List(items) =>
      forall i | 0 <= i < |items| ensures InKeyOrder(SortItems(items)[i]) {
        SortKeysInOrder(items[i]);
      }
    case Dict(fields) =>
      forall i | 0 <= i < |fields| ensures InKeyOrder(SortKeys(fields[i].value)) {
        SortKeysInOrder(fields[i].value);
      }
      PrintedInOrder(fields);
    case _ =>
  }

  lemma PrintedInOrder(fields: seq<Field>)
    requires DistinctKeys(fields)
    requires forall i :: 0 <= i < |fields| ==> InKeyOrder(SortKeys(fields[i].value))
    ensures InKeyOrder(Dict(Printed(fields)))
  {
    PrintedSorted(fields);
    var p := Printed(fields);
    hide SortKeys, Printed, Precedes, ComesBefore;
    forall i, j | 0 <= i < j < |p| ensures ComesBefore(p[i].key, p[j].key) {
      assert KeyBefore(p[i], p[j]);
      PrecedesIff(p[i].key, p[j].key);
    }
    forall i | 0 <= i < |p| ensures InKeyOrder(p[i].value) {
      assert p[i] in p;
      var k :| 0 <= k < |fields| && p[i] == Field(fields[k].key, SortKeys(fields[k].value));
    }
  }

  /** The canonical text is the compact text of a value with the same meaning whose keys ascend in every dict. */
  lemma DumpsInKeyOrder(v: Value) returns (w: Value)
    requires Proper(v)
    ensures Dumps(v) == Render(w) && InKeyOrder(w) && Meaning(w) == Meaning(v)
  {
    w := SortKeys(v);
    SortKeysInOrder(v);
    SortKeysMeaning(v);
  }

  function Joined(parts: seq<string>): string {
    if parts == [] then "" else if |parts| == 1 then parts[0] else parts[0] + "," + Joined(parts[1..])
  }

  function Texts(items: seq<Value>): seq<string> {
    seq(|items|, i requires 0 <= i < |items| => Render(items[i]))
  }

  function FieldTexts(fields: seq<Field>): seq<string> {
    seq(|fields|, i requires 0 <= i < |fields| => "\"" + Escape(fields[i].key) + "\":" + Render(fields[i].value))
  }

  lemma {:induction false} ItemsJoined(items: seq<Value>)
    ensures RenderItems(items) == Joined(Texts(items))
  {
    hide Render;
    if |items| > 1 {
      ItemsJoined(items[1..]);
      assert Texts(items)[1..] == Texts(items[1..]);
    }
  }

  lemma {:induction false} FieldsJoined(fields: seq<Field>)
    ensures RenderFields(fields) == Joined(FieldTexts(fields))
  {
    hide Render, Escape;
    if fields != [] {
      assert RenderField(fields[0]) == "\"" + Escape(fields[0].key) + "\":" + Render(fields[0].value);
      assert FieldTexts(fields)[0] == RenderField(fields[0]);
    }
    hide RenderField;
    if |fields| > 1 {
      FieldsJoined(fields[1..]);
      assert FieldTexts(fields)[1..] == FieldTexts(fields[1..]);
    }
  }

  /** The compact text of each kind of value: commas and colons without a space, and nothing else between. */
  lemma RenderExact(v: Value)
    ensures v.None? ==> Render(v) == "null"
    ensures v.Bool? ==> Render(v) == if v.b then "true" else "false"
    ensures v.Int? ==> Render(v) == IntText(v.n)
    ensures v.Str? ==> Render(v) == "\"" + Escape(v.s) + "\""
    ensures v.List? ==> Render(v) == "[" + Joined(Texts(v.items)) + "]"
    ensures v.Dict? ==> Render(v) == "{" + Joined(FieldTexts(v.fields)) + "}"
  {
    hide Escape, Texts, FieldTexts, RenderItems, RenderFields;
    if v.List? {
      ItemsJoined(v.items);
    }
    if v.Dict? {
      FieldsJoined(v.fields);
    }
  }

  /**
   * How a character is printed: as itself unless it is a quote, a backslash or a control character; those
   * with a short form by it, and the other control characters by four lower-case hex digits.
   */
  lemma EscapeExact(c: char)
    ensures EscapeChar(c) == [c] <==> c >= ' ' && c != '"' && c != '\\'
    ensures EscapeChar('"') == "\\\"" && EscapeChar('\\') == "\\\\"
    ensures EscapeChar('\n') == "\\n" && EscapeChar('\r') == "\\r" && EscapeChar('\t') == "\\t"
    ensures EscapeChar(8 as char) == "\\b" && EscapeChar(12 as char) == "\\f"
    ensures c < ' ' && c !in {'\n', '\r', '\t', 8 as char, 12 as char} ==>
      && |EscapeChar(c)| == 6 && EscapeChar(c)[..4] == "\\u00"
      && (forall i :: 4 <= i < 6 ==> IsDigit(EscapeChar(c)[i]) || 'a' <= EscapeChar(c)[i] <= 'f')
      && 16 * HexValue(EscapeChar(c)[4]) + HexValue(EscapeChar(c)[5]) == c as int
  {
  }
}
