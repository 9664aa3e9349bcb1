/**
 * JSON values as serde_json's `Value` holds them. The client looks up keys
 * only through mutable indexing, which `take()` needs and which panics on a
 * value that is neither an object nor null. Read-only indexing, which never
 * panics, is what the corrected handshake lookup and the contracts use.
 */
module Json {
  import opened Base

  /**
   * A JSON value. Numbers are integers: the client only writes integers
   * and only reads one (a user's flags). An object's members are kept in the
   * order they were written.
   */
  datatype Json =
    | JNull
    | JBool(b: bool)
    | JNum(n: int)
    | JStr(s: string)
    | JArr(items: seq<Json>)
    | JObj(members: seq<(string, Json)>)

  /** The value of the first member named `key`, if there is one. */
  function Lookup(members: seq<(string, Json)>, key: string): Option<Json> {
    if members == [] then None
    else if members[0].0 == key then Some(members[0].1)
    else Lookup(members[1..], key)
  }

  /** The first of two lookups that finds something. */
  function FirstOf(first: Option<Json>, second: Option<Json>): Option<Json> {
    if first.Some? then first else second
  }

  /** A lookup in two runs of members looks in the first run, then in the second. */
  lemma {:induction false} LookupAppend(front: seq<(string, Json)>, back: seq<(string, Json)>, key: string)
    ensures Lookup(front + back, key) == FirstOf(Lookup(front, key), Lookup(back, key))
  {
    if front != [] {
      assert (front + back)[1..] == front[1..] + back;
      LookupAppend(front[1..], back, key);
    } else {
      assert front + back == back;
    }
  }

  /** A lookup in four runs of members looks in each run in turn. */
  lemma LookupAppend4(m1: seq<(string, Json)>, m2: seq<(string, Json)>, m3: seq<(string, Json)>,
                      m4: seq<(string, Json)>, key: string)
    ensures Lookup(m1 + m2 + m3 + m4, key)
         == FirstOf(Lookup(m1, key), FirstOf(Lookup(m2, key), FirstOf(Lookup(m3, key), Lookup(m4, key))))
  {
    assert m1 + m2 + m3 + m4 == m1 + (m2 + (m3 + m4));
    LookupAppend(m1, m2 + (m3 + m4), key);
    LookupAppend(m2, m3 + m4, key);
    LookupAppend(m3, m4, key);
  }

  /**
   * Read-only indexing, `value[key]` on a `&Value`: the member's value for an
   * object that has the key, Null for an object without it and for every
   * value that is not an object.
   */
  function Index(j: Json, key: string): (r: Json)
    ensures j.JObj? && Lookup(j.members, key).Some? ==> Lookup(j.members, key) == Some(r)
    ensures !(j.JObj? && Lookup(j.members, key).Some?) ==> r == JNull
  {
    if j.JObj? then Lookup(j.members, key).GetOr(JNull) else JNull
  }

  /** The outcome of mutable indexing: a value, or a panic. */
  datatype Access = Value(j: Json) | Panic

  /**
   * Mutable indexing, `value[key]` on a `&mut Value`, as serde_json defines
   * it: an object yields the member's value (Null when the key is missing,
   * after inserting it), Null is first turned into an empty object and
   * yields Null, and any other value panics.
   */
  function IndexMut(j: Json, key: string): (r: Access)
    ensures r.Panic? <==> !(j.JObj? || j.JNull?)
  {
    match j
    case JObj(members) => Value(Lookup(members, key).GetOr(JNull))
    case JNull => Value(JNull)
    case _ => Panic
  }

  /** Where mutable indexing does not panic it agrees with read-only indexing. */
  lemma IndexMutAgreesWithIndex(j: Json, key: string)
    ensures IndexMut(j, key).Value? ==> IndexMut(j, key).j == Index(j, key)
  {
  }
}
