/**
 * The part of hashbrown's `RawTable` the rolling-hash engines use: a table
 * of (hash, text) entries created with a capacity, probed with a hash and an
 * equality on the stored text, and filled with `try_insert_no_grow`, which
 * never reallocates and fails once the table is full.
 */
module MatchTable {
  import opened Hashers

  /**
   * hashbrown's `h2`: the top 7 bits of a 64-bit hash. It is stored in the
   * control byte of the entry's slot, and `find` compares a stored key only
   * in slots whose control byte equals the tag of the hash looked up.
   */
  function Tag(h: u64): (t: nat)
    ensures t < 128
    ensures t * 0x200_0000_0000_0000 <= h < (t + 1) * 0x200_0000_0000_0000
  {
    h / 0x200_0000_0000_0000
  }

  class RawTable {
    /** The stored entries, each with the hash it was inserted under. */
    var entries: seq<(u64, seq<char>)>
    /** The number of entries the table holds without growing. */
    const capacity: nat

    /** `RawTable::with_capacity` */
    constructor WithCapacity(capacity: nat)
      ensures entries == [] && this.capacity == capacity
    {
      entries := [];
      this.capacity := capacity;
    }

    /**
     * `find(hash, equivalent_key(key)).is_some()`: some entry was stored
     * under this hash and holds this text.
     */
    method Find(hash: u64, key: seq<char>) returns (found: bool)
      ensures found <==> exists i :: 0 <= i < |entries| && entries[i] == (hash, key)
    {
      found := (hash, key) in entries;
    }

    /**
     * `try_insert_no_grow(hash, (key, ())).is_ok()`: stores the entry when
     * there is room left, and otherwise leaves the table as it was.
     */
    method TryInsertNoGrow(hash: u64, key: seq<char>) returns (ok: bool)
      modifies this
      ensures ok <==> |old(entries)| < capacity
      ensures entries == if ok then old(entries) + [(hash, key)] else old(entries)
    {
      ok := |entries| < capacity;
      if ok {
        entries := entries + [(hash, key)];
      }
    }
  }
}
