/** What the operations of hashtable.c do to a table, seen without its chains:
    the entries, the number of buckets, and the buffers made and given up. */
module TableSpec {
  import opened Hashes
  import opened Chains

  const START_SIZE := 32
  const SIZE_MODULUS := 0x1_0000_0000_0000_0000

  /** `moved` counts containers carried over by rebuilds, `minted` counts value
      buffers allocated. `freed` lists the value buffers freed, oldest first, and
      `handed` those given to the table's deleter. */
  datatype Table = Table(
    entries: map<Hash, Buffer>, buckets: nat, moved: nat, minted: nat,
    deleter: bool, freed: seq<Buffer>, handed: seq<Buffer>)

  const NEW_TABLE := Table(map[], 0, 0, 0, false, [], [])

  datatype Resize = Stay | To(size: nat)

  function Grow(count: nat, buckets: nat): Resize {
    if count + 1 > buckets * 2 then
      To(if buckets * 4 < START_SIZE then START_SIZE else buckets * 4)
    else Stay
  }

  /** `count - 1` is unsigned: at zero it wraps around to the largest size. */
  function Predecessor(count: nat): nat {
    if count == 0 then SIZE_MODULUS - 1 else count - 1
  }

  function Shrink(count: nat, buckets: nat): Resize {
    if Predecessor(count) < buckets / 8 && buckets / 4 > START_SIZE
    then To(buckets / 4)
    else Stay
  }

  function Rebuilt(t: Table, size: nat): Table {
    t.(buckets := size, moved := t.moved + |t.entries|)
  }

  function Resized(t: Table, r: Resize): Table {
    match r
    case Stay => t
    case To(size) => Rebuilt(t, size)
  }

  function Release(t: Table, b: Buffer): Table {
    t.(freed := t.freed + [b], handed := if t.deleter then t.handed + [b] else t.handed)
  }

  /** The locked body of a set with a value: an identical value changes nothing. */
  function Stored(t: Table, h: Hash, value: Bytes): Table {
    if h in t.entries && t.entries[h].bytes == value then t
    else
      var t1 := if h in t.entries then Release(t, t.entries[h]) else t;
      t1.(entries := t.entries[h := Buffer(t.minted, value)], minted := t.minted + 1)
  }

  /** The locked body of a set with null. */
  function Removed(t: Table, h: Hash): Table {
    if h in t.entries then Release(t, t.entries[h]).(entries := t.entries - {h}) else t
  }

  function Set(t: Table, h: Hash, value: Bytes): Table {
    Stored(Resized(t, Grow(|t.entries|, t.buckets)), h, value)
  }

  function Remove(t: Table, h: Hash): Table {
    Removed(Resized(t, Shrink(|t.entries|, t.buckets)), h)
  }
}
