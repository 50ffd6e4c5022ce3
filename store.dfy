/**
 * The object store the provider writes to, reduced to a map from key to
 * stored object. Which keys the store refuses is fixed when the bucket is
 * made; a refused put or delete is the store call that rejects.
 */
module ObjectStore {
  import opened Planner

  /** The fields of an `S3.upload` request that the provider sets. */
  datatype StoredObject = StoredObject(body: Bytes, contentType: string, acl: string)

  /** One `S3.upload` call. */
  datatype Write = Write(key: string, value: StoredObject)

  class Bucket {
    var objects: map<string, StoredObject>
    const refused: set<string>

    constructor (objects: map<string, StoredObject>, refused: set<string>)
      ensures this.objects == objects && this.refused == refused
    {
      this.objects := objects;
      this.refused := refused;
    }

    /** `S3.upload(params).promise()` */
    method Put(key: string, value: StoredObject) returns (ok: bool)
      modifies this
      ensures ok == (key !in refused)
      ensures objects == if ok then old(objects)[key := value] else old(objects)
    {
      ok := key !in refused;
      if ok {
        objects := objects[key := value];
      }
    }

    /** `S3.deleteObject(params).promise()`; deleting an absent key succeeds. */
    method Remove(key: string) returns (ok: bool)
      modifies this
      ensures ok == (key !in refused)
      ensures objects == if ok then old(objects) - {key} else old(objects)
    {
      ok := key !in refused;
      if ok {
        objects := objects - {key};
      }
    }
  }

  /** The objects after performing `writes` in order; a later write to a key replaces an earlier one. */
  function Apply(objects: map<string, StoredObject>, writes: seq<Write>): map<string, StoredObject>
    decreases |writes|
  {
    if writes == [] then objects
    else
      var w := writes[|writes| - 1];
      Apply(objects, writes[..|writes| - 1])[w.key := w.value]
  }

  function WriteKeys(writes: seq<Write>): seq<string> {
    seq(|writes|, i requires 0 <= i < |writes| => writes[i].key)
  }

  /** The index of the first refused key, or the length when none is refused. */
  function FirstRefused(keys: seq<string>, refused: set<string>): (k: nat)
    ensures k <= |keys|
    ensures forall j :: 0 <= j < k ==> keys[j] !in refused
    ensures k < |keys| ==> keys[k] in refused
  {
    if keys == [] || keys[0] in refused then 0
    else 1 + FirstRefused(keys[1..], refused)
  }

  /** Applying writes adds exactly their keys. */
  lemma {:induction false} ApplyKeys(objects: map<string, StoredObject>, writes: seq<Write>)
    ensures Apply(objects, writes).Keys == objects.Keys + set w | w in writes :: w.key
    decreases |writes|
  {
    if writes != [] {
      var init := writes[..|writes| - 1];
      ApplyKeys(objects, init);
      assert writes == init + [writes[|writes| - 1]];
    }
  }

  /** A key holds the object of the last write to it. */
  lemma {:induction false} ApplyLastWrite(objects: map<string, StoredObject>, writes: seq<Write>, i: nat)
    requires i < |writes|
    requires forall j :: i < j < |writes| ==> writes[j].key != writes[i].key
    ensures writes[i].key in Apply(objects, writes) && Apply(objects, writes)[writes[i].key] == writes[i].value
    decreases |writes|
  {
    if i < |writes| - 1 {
      ApplyLastWrite(objects, writes[..|writes| - 1], i);
    }
  }

  /** The objects left after deleting `keys`. */
  function Removed(objects: map<string, StoredObject>, keys: seq<string>): map<string, StoredObject> {
    objects - (set k | k in keys)
  }

  lemma RemovedAppend(objects: map<string, StoredObject>, keys: seq<string>, key: string)
    ensures Removed(objects, keys + [key]) == Removed(objects, keys) - {key}
  {
    assert (set k | k in keys + [key]) == (set k | k in keys) + {key};
  }

  lemma RemovedConcat(objects: map<string, StoredObject>, a: seq<string>, b: seq<string>)
    ensures Removed(Removed(objects, a), b) == Removed(objects, a + b)
  {
    assert (set k | k in a + b) == (set k | k in a) + (set k | k in b);
  }

  /** After a run of accepted keys, the first refusal is found in what follows. */
  lemma {:induction false} FirstRefusedAppend(a: seq<string>, b: seq<string>, refused: set<string>)
    requires forall j :: 0 <= j < |a| ==> a[j] !in refused
    ensures FirstRefused(a + b, refused) == |a| + FirstRefused(b, refused)
    decreases |a|
  {
    if a != [] {
      assert (a + b)[0] == a[0] && (a + b)[1..] == a[1..] + b;
      assert FirstRefused(a + b, refused) == 1 + FirstRefused(a[1..] + b, refused);
      FirstRefusedAppend(a[1..], b, refused);
    } else {
      assert a + b == b;
    }
  }
}
