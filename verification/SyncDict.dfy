/** The dictionary of datastruct/dict/sync_dict.go, used by one command at a time. */
module SyncDict {
  import opened ByteStrings
  import opened Commands

  class Dict {
    var m: Store

    constructor ()
      ensures m == map[]
    {
      m := map[];
    }

    function Get(key: Bytes): Option<Entity>
      reads this
    {
      if key in m then Some(m[key]) else None
    }

    method Put(key: Bytes, val: Entity) returns (result: int)
      modifies this
      ensures m == old(m)[key := val]
      ensures result == if key in old(m) then 0 else 1
    {
      var existed := Get(key).Some?;
      m := m[key := val];
      return if existed then 0 else 1;
    }

    method PutIfAbsent(key: Bytes, val: Entity) returns (result: int)
      modifies this
      ensures m == if key in old(m) then old(m) else old(m)[key := val]
      ensures result == if key in old(m) then 0 else 1
    {
      if key in m {
        return 0;
      }
      m := m[key := val];
      return 1;
    }

    method PutIfExists(key: Bytes, val: Entity) returns (result: int)
      modifies this
      ensures m == if key in old(m) then old(m)[key := val] else old(m)
      ensures result == if key in old(m) then 1 else 0
    {
      if key !in m {
        return 0;
      }
      m := m[key := val];
      return 1;
    }

    method Remove(key: Bytes) returns (result: int)
      modifies this
      ensures m == old(m) - {key}
      ensures result == if key in old(m) then 1 else 0
    {
      if key !in m {
        return 0;
      }
      m := m - {key};
      return 1;
    }

    method Len() returns (length: nat)
      ensures length == |m|
    {
      length := 0;
      var left := m.Keys;
      while left != {}
        invariant length + |left| == |m.Keys|
        decreases |left|
      {
        var key :| key in left;
        left := left - {key};
        length := length + 1;
      }
    }

    /** The keys, each once, in the order the map happens to be ranged over. */
    method Keys() returns (keys: seq<Bytes>)
      ensures NoDuplicates(keys) && forall k :: k in keys <==> k in m
    {
      keys := [];
      var left := m.Keys;
      while left != {}
        invariant left <= m.Keys
        invariant NoDuplicates(keys)
        invariant forall k :: k in keys <==> k in m && k !in left
        decreases |left|
      {
        var key :| key in left;
        left := left - {key};
        keys := keys + [key];
      }
    }

    method Clear()
      modifies this
      ensures m == map[]
    {
      m := map[];
    }
  }
}
