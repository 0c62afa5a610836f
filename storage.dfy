/** The raw store of the in-memory backend: a dictionary `data`, the list
    of its keys in insertion order, a cached `length` and a connected flag. */
module Storage {
  import opened Wrappers
  import opened Layout
  import opened Seqs

  class Store {
    var length: nat
    var keys: seq<Key>
    var data: map<Key, Value>
    var connected: bool

    /** `keys` lists every key of `data` exactly once and `length` caches
        its size. */
    ghost predicate Valid()
      reads this
    {
      && NoDup(keys)
      && length == |keys|
      && (forall k :: k in keys <==> k in data)
    }

    /** The initial `{length: 0, keys: [], data: {}, connected: false}`. */
    constructor ()
      ensures Valid()
      ensures keys == [] && data == map[] && !connected
    {
      length, keys, data, connected := 0, [], map[], false;
    }

    method Connect()
      modifies this`connected
      ensures connected
    {
      connected := true;
    }

    method Close()
      modifies this`connected
      ensures !connected
    {
      connected := false;
    }

    /** `getItem(key)`: the stored value, or nothing for a key never set
        or since removed. */
    function GetItem(key: Key): (v: Option<Value>)
      reads this
      requires Valid()
      ensures v.Some? <==> key in keys
      ensures v.Some? ==> v.value == data[key]
    {
      if key in data then Some(data[key]) else None
    }

    /** `setItem(key, value)`: overwrite the value; a key not yet listed is
        appended to `keys`, a listed one keeps its place. */
    method SetItem(key: Key, v: Value)
      requires Valid()
      modifies this`data, this`keys, this`length
      ensures Valid()
      ensures data == old(data)[key := v]
      ensures keys == if key in old(keys) then old(keys) else old(keys) + [key]
    {
      data := data[key := v];
      if IndexOf(keys, key) == -1 {
        keys := keys + [key];
        length := |keys|;
      }
    }

    /** `removeItem(key)`: delete the value and splice the key out of
        `keys`; every other key keeps its value and its relative order. */
    method RemoveItem(key: Key)
      requires Valid()
      modifies this`data, this`keys, this`length
      ensures Valid()
      ensures data == old(data) - {key}
      ensures keys == Without(old(keys), key) == RemoveAll(old(keys), {key})
    {
      data := data - {key};
      WithoutIsRemoval(keys, key);
      var index := IndexOf(keys, key);
      if index > -1 {
        keys := keys[..index] + keys[index + 1..];
        length := |keys|;
      }
    }

    /** `key(index)`: the key at that position of `keys`, or nothing when
        the index is out of range. */
    function KeyAt(index: int): (k: Option<Key>)
      reads this
      requires Valid()
      ensures k.Some? <==> 0 <= index < length
      ensures k.Some? ==> k.value in data && k.value == keys[index]
    {
      if 0 <= index < |keys| then Some(keys[index]) else None
    }
  }
}
