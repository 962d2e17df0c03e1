/** Signing of bridge responses (app/license_signing.py). */
module LicenseSigning {
  import opened CanonicalJson
  import Sorting

  const BRIDGE_SIG_FIELD := "_bridge_sig"

  /** The payload without its signature field, in its own order. */
  function Unsigned(fields: seq<Field>): (r: seq<Field>)
    ensures forall f :: f in r <==> f in fields && f.key != BRIDGE_SIG_FIELD
  {
    if fields == [] then []
    else
      assert fields == [fields[0]] + fields[1..];
      (if fields[0].key == BRIDGE_SIG_FIELD then [] else [fields[0]]) + Unsigned(fields[1..])
  }

  function CanonicalBridgeResponse(fields: seq<Field>): string {
    Dumps(Dict(Unsigned(fields)))
  }

  /** `d[key] = value`: a present key keeps its place, a new one goes to the end. */
  function Assign(fields: seq<Field>, key: string, value: Value): seq<Field> {
    if fields == [] then [Field(key, value)]
    else if fields[0].key == key then [Field(key, value)] + fields[1..]
    else [fields[0]] + Assign(fields[1..], key, value)
  }

  /** HMAC-SHA256 in hex, and `str(key or "").strip().upper()`, both taken as given. */
  datatype Crypto = Crypto(hmac: (string, string) -> string, normalise: string -> string)

  function SignBridgeResponse(crypto: Crypto, fields: seq<Field>, licenseKey: string): string {
    crypto.hmac(crypto.normalise(licenseKey), CanonicalBridgeResponse(fields))
  }

  function Attached(crypto: Crypto, fields: seq<Field>, licenseKey: string): seq<Field> {
    if licenseKey == "" then fields
    else Assign(fields, BRIDGE_SIG_FIELD, Str(SignBridgeResponse(crypto, fields, licenseKey)))
  }

  /** What the receiving radius instance checks, from the text of the specification above the signer. */
  predicate Verifies(crypto: Crypto, fields: seq<Field>, licenseKey: string) {
    Field(BRIDGE_SIG_FIELD, Str(SignBridgeResponse(crypto, fields, licenseKey))) in fields
  }

  class Payload {
    var fields: seq<Field>
    const crypto: Crypto

    constructor (crypto: Crypto, fields: seq<Field>)
      ensures this.crypto == crypto && this.fields == fields
    {
      this.crypto := crypto;
      this.fields := fields;
    }

    method AttachBridgeSignature(licenseKey: string)
      requires DistinctKeys(fields)
      modifies this`fields
      ensures DistinctKeys(fields)
      ensures fields == Attached(crypto, old(fields), licenseKey)
      ensures CanonicalBridgeResponse(fields) == CanonicalBridgeResponse(old(fields))
      ensures licenseKey != "" ==> Verifies(crypto, fields, licenseKey)
    {
      AttachedVerifies(crypto, fields, licenseKey);
      if licenseKey != "" {
        fields := Assign(fields, BRIDGE_SIG_FIELD, Str(SignBridgeResponse(crypto, fields, licenseKey)));
      }
    }
  }

  // ---------------------------------------------------------------- dict assignment

  lemma {:induction false} AssignFields(fields: seq<Field>, key: string, value: Value)
    requires DistinctKeys(fields)
    ensures DistinctKeys(Assign(fields, key, value))
    ensures Field(key, value) in Assign(fields, key, value)
    ensures forall f :: f in Assign(fields, key, value) ==> f == Field(key, value) || f in fields
  {
    if fields != [] && fields[0].key != key {
      AssignFields(fields[1..], key, value);
      var r := Assign(fields[1..], key, value);
      forall i | 0 <= i < |r| ensures r[i].key != fields[0].key {
        assert r[i] in r;
      }
    }
  }

  lemma {:induction false} AssignTwice(fields: seq<Field>, key: string, v: Value, w: Value)
    ensures Assign(Assign(fields, key, v), key, w) == Assign(fields, key, w)
  {
    if fields != [] && fields[0].key != key {
      AssignTwice(fields[1..], key, v, w);
    }
  }

  lemma {:induction false} UnsignedAssign(fields: seq<Field>, v: Value)
    ensures Unsigned(Assign(fields, BRIDGE_SIG_FIELD, v)) == Unsigned(fields)
  {
    if fields == [] {
      assert Unsigned([Field(BRIDGE_SIG_FIELD, v)]) == Unsigned([]);
    } else if fields[0].key != BRIDGE_SIG_FIELD {
      UnsignedAssign(fields[1..], v);
    } else {
      assert ([Field(BRIDGE_SIG_FIELD, v)] + fields[1..])[1..] == fields[1..];
    }
  }

  lemma {:induction false} UnsignedDistinct(fields: seq<Field>)
    requires DistinctKeys(fields)
    ensures DistinctKeys(Unsigned(fields))
  {
    if fields != [] {
      UnsignedDistinct(fields[1..]);
      var r := Unsigned(fields[1..]);
      forall i | 0 <= i < |r| ensures r[i].key != fields[0].key {
        assert r[i] in r;
      }
    }
  }

  lemma WithoutKey(k: string, v: Json, tail: map<string, Json>, gone: string)
    ensures (map[k := v] + tail) - {gone} == if k == gone then tail - {gone} else map[k := v] + (tail - {gone})
  {
  }

  lemma FirstFieldMeaning(f: Field, rest: seq<Field>)
    ensures FieldsMeaning([f] + rest) == map[f.key := Meaning(f.value)] + FieldsMeaning(rest)
  {
    hide Meaning;
    assert ([f] + rest)[1..] == rest;
  }

  lemma {:induction false} UnsignedMeaning(fields: seq<Field>)
    ensures FieldsMeaning(Unsigned(fields)) == FieldsMeaning(fields) - {BRIDGE_SIG_FIELD}
  {
    hide FieldsMeaning, Meaning;
    if fields != [] {
      var (f, rest) := (fields[0], Unsigned(fields[1..]));
      assert fields == [f] + fields[1..];
      assert Unsigned(fields) == if f.key == BRIDGE_SIG_FIELD then rest else [f] + rest;
      hide Unsigned;
      UnsignedMeaning(fields[1..]);
      FirstFieldMeaning(f, fields[1..]);
      FirstFieldMeaning(f, rest);
      WithoutKey(f.key, Meaning(f.value), FieldsMeaning(fields[1..]), BRIDGE_SIG_FIELD);
    } else {
      NoFieldsMeaning();
    }
  }

  lemma NoFieldsMeaning()
    ensures FieldsMeaning([]) == map[]
  {
  }

  // ---------------------------------------------------------------- the signature

  /** Attaching never changes the message that is signed, and the result passes the receiver's check. */
  lemma AttachedVerifies(crypto: Crypto, fields: seq<Field>, licenseKey: string)
    requires DistinctKeys(fields)
    ensures DistinctKeys(Attached(crypto, fields, licenseKey))
    ensures CanonicalBridgeResponse(Attached(crypto, fields, licenseKey)) == CanonicalBridgeResponse(fields)
    ensures licenseKey != "" ==> Verifies(crypto, Attached(crypto, fields, licenseKey), licenseKey)
  {
    if licenseKey != "" {
      var sig := Str(SignBridgeResponse(crypto, fields, licenseKey));
      AssignFields(fields, BRIDGE_SIG_FIELD, sig);
      UnsignedAssign(fields, sig);
    }
  }

  /** Signing a signed payload again with the same key changes nothing. */
  lemma AttachIdempotent(crypto: Crypto, fields: seq<Field>, licenseKey: string)
    ensures Attached(crypto, Attached(crypto, fields, licenseKey), licenseKey) == Attached(crypto, fields, licenseKey)
  {
    if licenseKey != "" {
      var sig := Str(SignBridgeResponse(crypto, fields, licenseKey));
      UnsignedAssign(fields, sig);
      AssignTwice(fields, BRIDGE_SIG_FIELD, sig, sig);
    }
  }

  /** Two payloads have the same signed message exactly when they are equal apart from the signature. */
  lemma MessageFaithful(p: seq<Field>, q: seq<Field>)
    requires Proper(Dict(p)) && Proper(Dict(q))
    ensures CanonicalBridgeResponse(p) == CanonicalBridgeResponse(q) <==>
      FieldsMeaning(p) - {BRIDGE_SIG_FIELD} == FieldsMeaning(q) - {BRIDGE_SIG_FIELD}
  {
    UnsignedProper(p);
    UnsignedProper(q);
    DumpsFaithful(Dict(Unsigned(p)), Dict(Unsigned(q)));
    UnsignedMeaning(p);
    UnsignedMeaning(q);
  }

  lemma UnsignedProper(fields: seq<Field>)
    requires Proper(Dict(fields))
    ensures Proper(Dict(Unsigned(fields)))
  {
    UnsignedDistinct(fields);
    var r := Unsigned(fields);
    forall i | 0 <= i < |r| ensures Proper(r[i].value) {
      assert r[i] in fields;
      var j :| 0 <= j < |fields| && fields[j] == r[i];
    }
  }

  /**
   * A receiver that accepts a payload carrying a genuine signature of `sent` holds the content that was
   * sent, as long as the two messages do not collide under HMAC.
   */
  lemma AcceptedIsSent(crypto: Crypto, sent: seq<Field>, received: seq<Field>, licenseKey: string)
    requires Proper(Dict(sent)) && Proper(Dict(received)) && licenseKey != ""
    requires Field(BRIDGE_SIG_FIELD, Str(SignBridgeResponse(crypto, sent, licenseKey))) in received
    requires var k := crypto.normalise(licenseKey);
      var (m, n) := (CanonicalBridgeResponse(sent), CanonicalBridgeResponse(received));
      crypto.hmac(k, m) == crypto.hmac(k, n) ==> m == n
    ensures Verifies(crypto, received, licenseKey) <==>
      FieldsMeaning(received) - {BRIDGE_SIG_FIELD} == FieldsMeaning(sent) - {BRIDGE_SIG_FIELD}
  {
    MessageFaithful(sent, received);
  }

  lemma {:induction false} AssignHolds(fields: seq<Field>, key: string, value: Value, f: Field)
    requires DistinctKeys(fields)
    ensures f in Assign(fields, key, value) <==> f == Field(key, value) || (f in fields && f.key != key)
  {
    if fields != [] {
      assert fields == [fields[0]] + fields[1..];
      AssignHolds(fields[1..], key, value, f);
      if fields[0].key == key && f in fields[1..] {
        var j :| 0 < j < |fields| && fields[j] == f;
      }
    }
  }

  /** The fields other than the signature, in any order. */
  ghost predicate BodyOf(fields: seq<Field>, body: seq<Field>) {
    DistinctKeys(body) && forall g :: g in body <==> g in fields && g.key != "_bridge_sig"
  }

  /**
   * The signed payload, written out: every other field as it was, and under `_bridge_sig` the HMAC, keyed by the
   * normalised license key, of the canonical text of the other fields. Without a key nothing is signed.
   */
  lemma AttachExact(crypto: Crypto, fields: seq<Field>, licenseKey: string, f: Field)
    requires DistinctKeys(fields)
    ensures licenseKey == "" ==> Attached(crypto, fields, licenseKey) == fields
    ensures licenseKey != "" && f.key != "_bridge_sig" ==> (f in Attached(crypto, fields, licenseKey) <==> f in fields)
    ensures licenseKey != "" && f.key == "_bridge_sig" ==>
      (f in Attached(crypto, fields, licenseKey) <==>
        exists body :: BodyOf(fields, body) && f.value == Str(crypto.hmac(crypto.normalise(licenseKey), Dumps(Dict(body)))))
  {
    if licenseKey != "" {
      AssignHolds(fields, BRIDGE_SIG_FIELD, Str(SignBridgeResponse(crypto, fields, licenseKey)), f);
      UnsignedDistinct(fields);
      assert BodyOf(fields, Unsigned(fields));
      if body :| BodyOf(fields, body) && f.value == Str(crypto.hmac(crypto.normalise(licenseKey), Dumps(Dict(body)))) {
        SameFieldsSameText(body, Unsigned(fields));
      }
    }
  }

  /** The order of the fields of a dict never shows in its canonical text. */
  lemma SameFieldsSameText(a: seq<Field>, b: seq<Field>)
    requires DistinctKeys(a) && DistinctKeys(b) && forall f :: f in a <==> f in b
    ensures Dumps(Dict(a)) == Dumps(Dict(b))
  {
    PrintedSorted(a);
    PrintedSorted(b);
    KeyBeforeStrict();
    forall f ensures f in Printed(a) <==> f in Printed(b) {
      if i :| 0 <= i < |a| && f == Field(a[i].key, SortKeys(a[i].value)) {
        assert a[i] in b;
        var j :| 0 <= j < |b| && b[j] == a[i];
      }
      if j :| 0 <= j < |b| && f == Field(b[j].key, SortKeys(b[j].value)) {
        assert b[j] in a;
        var i :| 0 <= i < |a| && a[i] == b[j];
      }
    }
    Sorting.SortedUnique(KeyBefore, Printed(a), Printed(b));
  }
}
