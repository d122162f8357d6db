/** The entry points of the environment partition driver: look up the definition of
    a device, scan it for one partition and hand that partition to the block layer in
    512-byte sectors. */
module Driver {
  import opened CTypes
  import opened Entry
  import opened Definition
  import opened Layout
  import opened Locator

  /** The parser's out-structure: where a partition lies, in bytes, and its name (the
      characters of the `name` buffer before its terminator). */
  class PartEnv {
    var offset: u64
    var size: u64
    var name: seq<char>

    /** A structure as it lies on the caller's stack before the parser writes it: the
        name buffer holds whatever it held before. */
    constructor(stale: seq<char>)
      ensures offset == 0 && size == 0 && name == stale
    {
      offset := 0;
      size := 0;
      name := stale;
    }
  }

  /** The block layer's description of a partition, in blocks of `blksz` bytes. */
  class DiskPartition {
    var start: u64
    var size: u64
    var blksz: u64
    var name: seq<char>

    constructor(start: u64, size: u64, blksz: u64, name: seq<char>)
      ensures this.start == start && this.size == size && this.blksz == blksz && this.name == name
    {
      this.start := start;
      this.size := size;
      this.blksz := blksz;
      this.name := name;
    }
  }

  /** The capacity of the device in bytes, `lba * blksz` in `ulong` arithmetic. */
  function Capacity(dev: BlkDesc): u64 {
    Wrap(dev.lba * dev.blksz)
  }

  /** What looking up partition `part` of a device yields: the device's definition
      resolved against its capacity, or why there is none. */
  function Lookup(dev: BlkDesc, board: Board, part: int32): (r: Result<Found, Failure>)
    ensures r == Err(NoDefinition) <==> DefinitionEnv(dev, board).None?
    ensures r.Ok? ==> r.value.offset % SECTOR_SIZE == 0 && r.value.size % SECTOR_SIZE == 0
    ensures r.Ok? ==> r.value.offset <= Capacity(dev) && Wrap(r.value.offset + r.value.size) <= Capacity(dev)
    ensures r.Ok? && r.value.name.Some? ==>
      |r.value.name.value| < PART_NAME_LEN && '(' !in r.value.name.value && ')' !in r.value.name.value
  {
    match DefinitionEnv(dev, board)
    case None => Err(NoDefinition)
    case Some(def) =>
      ResolveSound(def, part, Capacity(dev));
      if Resolve(def, part, Capacity(dev)).Ok? then
        ResolveNameWellFormed(def, part, Capacity(dev));
        Resolve(def, part, Capacity(dev))
      else Resolve(def, part, Capacity(dev))
  }

  /** Fetches the device's definition and scans it for partition `part`. On success the
      offset and size are stored and, when the entry names the partition, the name too;
      an entry without a name leaves the stored name as it was. On failure nothing is
      stored. */
  method GetDefinitionPart(dev: BlkDesc, board: Board, part: int32, env: PartEnv) returns (rc: int32)
    modifies env
    ensures rc == 0 || rc == -1
    ensures rc == 0 <==> Lookup(dev, board, part).Ok?
    ensures rc != 0 ==> unchanged(env)
    ensures rc == 0 ==>
      var found := Lookup(dev, board, part).value;
      env.offset == found.offset && env.size == found.size &&
      env.name == (if found.name.Some? then found.name.value else old(env.name))
  {
    var def := DefinitionEnv(dev, board);
    if def.None? {
      return -1;
    }
    var r := Scan(def.value, part, Capacity(dev));
    if r.Err? {
      return -1;
    }
    if r.value.name.Some? {
      env.name := r.value.name.value;
    }
    env.size := r.value.size;
    env.offset := r.value.offset;
    return 0;
  }

  /** What `strncpy` into a `PART_NAME_LEN` buffer keeps of a name. */
  function BoundedName(name: seq<char>): (r: seq<char>)
    ensures |r| <= PART_NAME_LEN && r <= name
    ensures |name| <= PART_NAME_LEN ==> r == name
    ensures |r| == if |name| <= PART_NAME_LEN then |name| else PART_NAME_LEN
  {
    if |name| <= PART_NAME_LEN then name else name[..PART_NAME_LEN]
  }

  /** Describes partition `part` to the block layer in 512-byte sectors. Sector numbers
      are exact, since the parser only accepts whole sectors, and the partition ends on
      the disk in the source's 64-bit arithmetic. The name of an unnamed entry is
      whatever the parser's uninitialised structure held, `stale` here. On failure
      `info` is not written. */
  method GetInfoEnv(dev: BlkDesc, board: Board, part: int32, info: DiskPartition, stale: CStr)
    returns (rc: int32)
    modifies info
    ensures rc == 0 || rc == -1
    ensures rc == 0 <==> Lookup(dev, board, part).Ok?
    ensures rc != 0 ==> unchanged(info)
    ensures rc == 0 ==>
      var found := Lookup(dev, board, part).value;
      info.blksz == SECTOR_SIZE &&
      info.start * SECTOR_SIZE == found.offset && info.size * SECTOR_SIZE == found.size &&
      Wrap((info.start + info.size) * SECTOR_SIZE) <= Capacity(dev) &&
      info.name == (if found.name.Some? then found.name.value else BoundedName(stale))
  {
    var env := new PartEnv(stale);
    rc := GetDefinitionPart(dev, board, part, env);
    if rc != 0 {
      return -1;
    }
    info.name := BoundedName(env.name);
    info.blksz := SECTOR_SIZE;
    info.start := env.offset / SECTOR_SIZE;
    info.size := env.size / SECTOR_SIZE;
    return 0;
  }
}
