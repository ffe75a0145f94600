/**
 * The region directory and the region loader, as the provider sees them.
 * RegionLoader's own code is not part of this model: a loader is reduced to
 * the file it serves, its coordinates, the 32x32 slots it presents and its
 * `lastUsed` stamp, and the directory to a map from file to file content.
 *
 * The provider only ever touches two kinds of file: the region file
 * `r.<x>.<z>.<ext>` and its backup `r.<x>.<z>.<ext>.bak.<time>`.  The
 * directory is keyed by these names as structured values; PathOfInjective
 * shows that distinct names are distinct paths, so nothing is conflated.
 */
module RegionFiles {
  import opened Wrappers
  import opened RegionNames

  type Bytes = seq<bv8>

  /** A chunk's position inside its region: `(chunkX & 0x1f, chunkZ & 0x1f)`. */
  type Slot = (int, int)

  type Slots = map<Slot, Bytes>

  /** A file of the region directory: a readable region, or bytes that fail to open as one. */
  datatype FileContent = RegionData(slots: Slots) | Garbage(raw: Bytes)

  /** A file of the world directory that the provider names. */
  datatype FileName = RegionFile(x: int, z: int) | Backup(x: int, z: int, time: int)

  /** The path a file name stands for, under world root `root` with region extension `ext`. */
  function PathOf(root: string, ext: string, f: FileName): string
  {
    match f
    case RegionFile(x, z) => PathToRegion(root, x, z, ext)
    case Backup(x, z, time) => BackupPath(PathToRegion(root, x, z, ext), time)
  }

  /** Distinct file names are distinct paths. */
  lemma PathOfInjective(root: string, ext: string, f: FileName, g: FileName)
    requires ValidExt(ext)
    requires PathOf(root, ext, f) == PathOf(root, ext, g)
    ensures f == g
  {
    match f
    case RegionFile(x, z) =>
      if g.RegionFile? {
        PathToRegionInjective(root, x, z, g.x, g.z, ext);
      } else {
        BackupIsNoRegionPath(PathToRegion(root, g.x, g.z, ext), g.time, root, x, z, ext);
      }
    case Backup(x, z, time) =>
      if g.RegionFile? {
        BackupIsNoRegionPath(PathToRegion(root, x, z, ext), time, root, g.x, g.z, ext);
      } else {
        BackupPathInjective(PathToRegion(root, x, z, ext), time, PathToRegion(root, g.x, g.z, ext), g.time);
        PathToRegionInjective(root, x, z, g.x, g.z, ext);
      }
  }

  /** `pathToRegion($x, $z) . ".bak." . time()`: the backup of a region file. */
  function BackupOf(f: FileName, time: int): (b: FileName)
    requires f.RegionFile?
    ensures b.Backup? && b != f
    ensures forall root, ext :: PathOf(root, ext, b) == BackupPath(PathOf(root, ext, f), time)
  {
    Backup(f.x, f.z, time)
  }

  type Directory = map<FileName, FileContent>

  datatype Loader = Loader(path: FileName, x: int, z: int, slots: Slots, lastUsed: int)

  /** What opening a loader gives: the loader and the directory after, or CorruptedRegionException. */
  datatype Opening = Opened(loader: Loader, dir: Directory) | Corrupted

  /** `new RegionLoader($path, $regionX, $regionZ)`: nothing is read yet. */
  function NewLoader(path: FileName, x: int, z: int): (l: Loader)
  {
    Loader(path, x, z, map[], 0)
  }

  /**
   * The slots a freshly opened loader presents for a path: those of a
   * readable file, and none when there is no file or when the file is
   * corrupted and will be replaced by an empty one.
   */
  function StoredSlots(dir: Directory, path: FileName): Slots
  {
    if path in dir && dir[path].RegionData? then dir[path].slots else map[]
  }

  /**
   * `$region->open()` at time `now`: a missing file is created empty, a
   * readable one is loaded, and a corrupted one throws.
   */
  function Open(l: Loader, dir: Directory, now: int): (r: Opening)
    ensures r.Corrupted? <==> l.path in dir && dir[l.path].Garbage?
    ensures r.Opened? ==> r.loader == l.(slots := StoredSlots(dir, l.path), lastUsed := now)
    ensures r.Opened? ==> r.dir == dir[l.path := RegionData(StoredSlots(dir, l.path))]
  {
    if l.path !in dir then Opened(l.(slots := map[], lastUsed := now), dir[l.path := RegionData(map[])])
    else
      match dir[l.path]
      case RegionData(s) => Opened(l.(slots := s, lastUsed := now), dir)
      case Garbage(_) => Corrupted
  }

  /** `$region->close($writeHeader)`: with true the loader's slots reach its file, with false nothing is written. */
  function CloseLoader(dir: Directory, l: Loader, write: bool): (d: Directory)
    ensures write ==> l.path in d && d[l.path] == RegionData(l.slots)
    ensures !write ==> d == dir
    ensures forall p :: p != l.path ==> (p in d <==> p in dir) && (p in d ==> d[p] == dir[p])
  {
    if write then dir[l.path := RegionData(l.slots)] else dir
  }

  /** `rename($from, $to)`: the content moves, replacing whatever was at `to`. */
  function Rename(dir: Directory, from: FileName, to: FileName): (d: Directory)
    requires from in dir
    requires from != to
    ensures from !in d && to in d && d[to] == dir[from]
    ensures forall p :: p != from && p != to ==> (p in d <==> p in dir) && (p in d ==> d[p] == dir[p])
  {
    (dir - {from})[to := dir[from]]
  }

  /** `$region->readChunk($x, $z)`: the slot's bytes, or null when the slot is empty. */
  function ReadSlot(l: Loader, slot: Slot): (r: Option<Bytes>)
    ensures r.Some? <==> slot in l.slots
    ensures r.Some? ==> r.value == l.slots[slot]
  {
    if slot in l.slots then Some(l.slots[slot]) else None
  }

  /** `$region->writeChunk($x, $z, $data)`: the slot now holds the bytes; nothing else of the loader changes. */
  function WriteSlot(l: Loader, slot: Slot, data: Bytes): (r: Loader)
    ensures r.slots == l.slots[slot := data]
    ensures r.path == l.path && r.x == l.x && r.z == l.z && r.lastUsed == l.lastUsed
  {
    l.(slots := l.slots[slot := data])
  }
}
