/**
 * The key-value store the repository talks to, as far as the service uses it:
 * string keys mapping to hashes of string fields, with HGETALL, HSET (a field
 * merge), DEL and KEYS by prefix.
 */
module HashStore {
  import opened JsRuntime

  /** A hash: field name to field text. */
  type Hash = map<string, string>

  /** HGETALL of a key the store does not hold gives the empty hash. */
  function Lookup(hashes: map<string, Hash>, key: string): Hash {
    if key in hashes then hashes[key] else map[]
  }

  /** The text the client library sends for a field value; `None` when it throws. */
  function FieldText(v: Value): Option<string> {
    match v
    case Text(s) => Some(s)
    case Num(n) => Some(NumberToString(n))
    case _ => None
  }

  /**
   * The fields HSET sends for an object, or the error converting them throws.
   * The error's detail stands in for the client library's own message, which
   * is not part of this model.
   */
  function EncodeFields(o: Object): Result<Hash> {
    if forall name :: name in o ==> FieldText(o[name]).Some? then
      Ok(map name | name in o :: FieldText(o[name]).value)
    else
      Err(TypeError("field value cannot be sent"))
  }

  /** The fields sent are the object's own properties, each as its text. */
  lemma EncodedFields(o: Object)
    requires EncodeFields(o).Ok?
    ensures EncodeFields(o).value.Keys == o.Keys
    ensures forall name :: name in o ==> EncodeFields(o).value[name] == FieldText(o[name]).value
    ensures EncodeFields(o).value == map[] <==> o == map[]
  {
    var h := EncodeFields(o).value;
    if o != map[] {
      var name :| name in o;
      assert name in h;
    }
  }

  /** A field merge takes the new value of every merged field and keeps every other field. */
  lemma MergedHash(current: Hash, fields: Hash)
    ensures (current + fields).Keys == current.Keys + fields.Keys
    ensures forall f :: f in fields ==> (current + fields)[f] == fields[f]
    ensures forall f :: f in current && f !in fields ==> (current + fields)[f] == current[f]
  {
  }

  /** Merging fields the hash already holds with the same values changes nothing. */
  lemma MergeAgreeing(current: Hash, fields: Hash)
    requires forall f :: f in fields ==> f in current && current[f] == fields[f]
    ensures current + fields == current
  {
    MergedHash(current, fields);
  }

  /** What HGETALL gives back: every field as text. */
  function AsObject(h: Hash): Object {
    map name | name in h :: Text(h[name])
  }

  predicate Distinct(keys: seq<string>) {
    forall i, j :: 0 <= i < j < |keys| ==> keys[i] != keys[j]
  }

  lemma {:induction false} DistinctCardinality(keys: seq<string>)
    requires Distinct(keys)
    ensures |set k | k in keys| == |keys|
  {
    if keys != [] {
      var rest := keys[1..];
      DistinctCardinality(rest);
      assert (set k | k in keys) == (set k | k in rest) + {keys[0]};
      assert keys[0] !in (set k | k in rest);
    }
  }

  class Store {
    var hashes: map<string, Hash>

    /** The store never holds an empty hash: a hash with no fields does not exist. */
    ghost predicate Valid()
      reads this
    {
      forall key :: key in hashes ==> hashes[key] != map[]
    }

    constructor ()
      ensures Valid() && hashes == map[]
    {
      hashes := map[];
    }

    method HGetAll(key: string) returns (h: Hash)
      requires Valid()
      ensures h == Lookup(hashes, key)
      ensures h == map[] <==> key !in hashes
    {
      h := Lookup(hashes, key);
    }

    /**
     * HSET merges `fields` into the hash at `key` and answers how many fields
     * are new; with no fields at all the store replies with an error.
     */
    method HSet(key: string, fields: Hash) returns (added: Result<nat>)
      requires Valid()
      modifies this
      ensures Valid()
      ensures fields == map[] ==> added.Err? && hashes == old(hashes)
      ensures fields != map[] ==>
        && added == Ok(|fields.Keys - old(Lookup(hashes, key)).Keys|)
        && hashes == old(hashes)[key := old(Lookup(hashes, key)) + fields]
    {
      if fields == map[] {
        added := Err(ReplyError("ERR wrong number of arguments for 'hset' command"));
        return;
      }
      var current := Lookup(hashes, key);
      added := Ok(|fields.Keys - current.Keys|);
      hashes := hashes[key := current + fields];
    }

    /** DEL removes the key and answers how many keys it removed. */
    method Del(key: string) returns (removed: nat)
      requires Valid()
      modifies this
      ensures Valid()
      ensures hashes == old(hashes) - {key}
      ensures removed == if key in old(hashes) then 1 else 0
    {
      removed := if key in hashes then 1 else 0;
      hashes := hashes - {key};
    }

    /** KEYS `prefix*`: every key with the prefix, once each, in no particular order. */
    method Keys(prefix: string) returns (keys: seq<string>)
      ensures Distinct(keys)
      ensures forall key :: key in keys <==> key in hashes && StartsWith(key, prefix)
      ensures |keys| == |set key | key in hashes && StartsWith(key, prefix)|
    {
      var matching := set key | key in hashes && StartsWith(key, prefix);
      var pending := matching;
      keys := [];
      while pending != {}
        invariant forall key :: key in keys || key in pending <==> key in matching
        invariant forall key :: key in keys ==> key !in pending
        invariant Distinct(keys)
        decreases |pending|
      {
        var key :| key in pending;
        keys := keys + [key];
        pending := pending - {key};
      }
      DistinctCardinality(keys);
      assert (set key | key in keys) == matching;
    }
  }
}
