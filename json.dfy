/** JSON values as `JSON.parse` produces them and `JSON.stringify` consumes them. An object
    is the sequence of its members in insertion order; assigning to a key that is present
    replaces its value in place, and assigning to a new key appends it. A number is kept
    as the text `String(n)` gives for it. */
module Json {
  import opened Options

  datatype Json =
    | JNull
    | JBool(b: bool)
    | JNumber(text: string)
    | JString(s: string)
    | JArray(items: seq<Json>)
    | JObject(members: seq<(string, Json)>)

  type Members = seq<(string, Json)>

  function Keys(m: Members): (ks: seq<string>)
    ensures |ks| == |m| && forall i :: 0 <= i < |m| ==> ks[i] == m[i].0
  {
    if m == [] then [] else [m[0].0] + Keys(m[1..])
  }

  /** No key occurs twice, as in every object JavaScript builds. */
  predicate DistinctKeys(m: Members) {
    forall i, j :: 0 <= i < j < |m| ==> m[i].0 != m[j].0
  }

  /** The value stored under `k`. */
  function Lookup(m: Members, k: string): Option<Json> {
    if m == [] then None
    else if m[0].0 == k then Some(m[0].1)
    else Lookup(m[1..], k)
  }

  /** `obj[k] = v`. */
  function Put(m: Members, k: string, v: Json): Members {
    if m == [] then [(k, v)]
    else if m[0].0 == k then [(k, v)] + m[1..]
    else [m[0]] + Put(m[1..], k, v)
  }

  /** After `obj[k] = v`, reading `k` gives `v`, and every other key is unchanged. */
  lemma {:induction false} LookupPut(m: Members, k: string, v: Json, k': string)
    ensures Lookup(Put(m, k, v), k') == if k' == k then Some(v) else Lookup(m, k')
  {
    if m != [] && m[0].0 != k {
      LookupPut(m[1..], k, v, k');
      assert Put(m, k, v)[1..] == Put(m[1..], k, v);
    }
  }

  /** A second assignment to the same key overwrites the first. */
  lemma {:induction false} PutPut(m: Members, k: string, v1: Json, v2: Json)
    ensures Put(Put(m, k, v1), k, v2) == Put(m, k, v2)
  {
    if m != [] && m[0].0 != k {
      PutPut(m[1..], k, v1, v2);
      assert Put(m, k, v1)[1..] == Put(m[1..], k, v1);
    }
  }

  /** A present key keeps its position; a new key goes at the end. */
  lemma {:induction false} KeysPut(m: Members, k: string, v: Json)
    ensures Keys(Put(m, k, v)) == if k in Keys(m) then Keys(m) else Keys(m) + [k]
  {
    if m != [] {
      KeysPut(m[1..], k, v);
      KeysCons(m[0], m[1..]);
      assert [m[0]] + m[1..] == m;
      if m[0].0 != k {
        PutCons(m, k, v);
        KeysCons(m[0], Put(m[1..], k, v));
        assert k in Keys(m) <==> k in Keys(m[1..]);
      } else {
        KeysCons((k, v), m[1..]);
      }
    }
  }

  lemma KeysCons(p: (string, Json), m: Members)
    ensures Keys([p] + m) == [p.0] + Keys(m)
  {
  }

  lemma PutCons(m: Members, k: string, v: Json)
    requires m != [] && m[0].0 != k
    ensures Put(m, k, v) == [m[0]] + Put(m[1..], k, v)
  {
  }

  /** Assignment keeps the keys distinct. */
  lemma PutDistinct(m: Members, k: string, v: Json)
    requires DistinctKeys(m)
    ensures DistinctKeys(Put(m, k, v))
  {
    KeysPut(m, k, v);
    var p := Put(m, k, v);
    assert forall i :: 0 <= i < |p| ==> p[i].0 == Keys(p)[i];
    assert forall i :: 0 <= i < |m| ==> m[i].0 == Keys(m)[i];
  }

  /** A key is found exactly when it is present. */
  lemma {:induction false} LookupFound(m: Members, k: string)
    ensures Lookup(m, k).Some? <==> k in Keys(m)
  {
    if m != [] {
      LookupFound(m[1..], k);
      assert Keys(m) == [m[0].0] + Keys(m[1..]);
    }
  }

  /** A primitive: what `typeof v !== "object" || v === null` selects. */
  predicate IsPrimitive(v: Json) {
    !v.JArray? && !v.JObject?
  }

  /** `String(v)` of a primitive. */
  function PrimitiveText(v: Json): string
    requires IsPrimitive(v)
  {
    match v
    case JNull => "null"
    case JBool(b) => if b then "true" else "false"
    case JNumber(t) => t
    case JString(s) => s
  }
}
