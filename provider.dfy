/**
 * RegionLevelProvider: the cache `$regions` of open region loaders, keyed by
 * region coordinates, with lazy loading, corruption recovery, idle eviction
 * and shutdown, and the chunk read, write and enumeration built on it.
 *
 * The region directory is the field `disk`, the logger the field `log`, and
 * `time()` the parameter `now` of each operation.
 */
module RegionProvider {
  import opened Wrappers
  import opened Coords
  import opened RegionNames
  import opened RegionFiles
  import opened Enumeration
  import opened FilterMaps

  /** A region's coordinates: the key of `$regions`, standing for `Level::chunkHash($regionX, $regionZ)`. */
  datatype RegionPos = RegionPos(x: int, z: int)

  /** The concrete format's chunk codec, and how a chunk tells its own coordinates. */
  datatype Codec<!C> = Codec(getX: C -> int, getZ: C -> int, serialize: C -> Bytes, deserialize: Bytes -> C)

  /** `$this->path` and the format's region file extension. */
  datatype Layout = Layout(root: string, ext: string)

  /** The lines the provider writes to the error log during corruption recovery. */
  datatype LogEntry = CorruptionDetected(file: FileName) | BackedUp(file: FileName, backup: FileName)

  /** The file of a region, `pathToRegion($regionX, $regionZ)`. */
  function RegionPath(pos: RegionPos): FileName
  {
    RegionFile(pos.x, pos.z)
  }

  /** The region of a chunk, as getRegionIndex computes it. */
  function ChunkRegion(x: int, z: int): RegionPos
  {
    var r := GetRegionIndex(x, z);
    RegionPos(r.0, r.1)
  }

  /** The slot of a chunk in its region: `(chunkX & 0x1f, chunkZ & 0x1f)`. */
  function ChunkSlot(x: int, z: int): Slot
  {
    (LocalIndex(x), LocalIndex(z))
  }

  /** Each cached loader serves its own region's file. */
  ghost predicate WellFormed(regions: map<RegionPos, Loader>)
  {
    forall pos :: pos in regions ==>
      regions[pos].path == RegionPath(pos) && regions[pos].x == pos.x && regions[pos].z == pos.z
  }

  /**
   * What a region reads as: the slots of its cached loader, or else those a
   * loader opened now would present.
   */
  function RegionView(regions: map<RegionPos, Loader>, disk: Directory, pos: RegionPos): Slots
  {
    if pos in regions then regions[pos].slots else StoredSlots(disk, RegionPath(pos))
  }

  /** Two states in which every region reads the same. */
  ghost predicate SameView(r1: map<RegionPos, Loader>, d1: Directory, r2: map<RegionPos, Loader>, d2: Directory)
  {
    forall pos :: RegionView(r1, d1, pos) == RegionView(r2, d2, pos)
  }

  /** The chunk readChunk returns for `(x, z)` in a state. */
  function ChunkAt<C>(codec: Codec<C>, regions: map<RegionPos, Loader>, disk: Directory, x: int, z: int): Option<C>
  {
    var slots := RegionView(regions, disk, ChunkRegion(x, z));
    if ChunkSlot(x, z) in slots then Some(codec.deserialize(slots[ChunkSlot(x, z)])) else None
  }

  /** Reading chunks by coordinates in a fixed state. */
  function Reader<C>(codec: Codec<C>, regions: map<RegionPos, Loader>, disk: Directory): Coord -> Option<C>
  {
    (c: Coord) => ChunkAt(codec, regions, disk, c.0, c.1)
  }

  /** The cached regions that a collection with this limit evicts. */
  function Idle(regions: map<RegionPos, Loader>, limit: int): set<RegionPos>
  {
    set pos | pos in regions && regions[pos].lastUsed <= limit
  }

  /** Whether a file is the region file of one of the regions `ps`. */
  predicate FileOfAny(f: FileName, ps: set<RegionPos>)
  {
    f.RegionFile? && RegionPos(f.x, f.z) in ps
  }

  /**
   * A chunk is read back as the decoding of what was written for it, and every
   * other chunk reads as before, when the write changed that one slot of that
   * one region.
   */
  lemma ReadAfterWrite<C>(codec: Codec<C>, r1: map<RegionPos, Loader>, d1: Directory,
                          r2: map<RegionPos, Loader>, d2: Directory, chunk: C)
    requires var pos := ChunkRegion(codec.getX(chunk), codec.getZ(chunk));
             RegionView(r2, d2, pos) ==
               RegionView(r1, d1, pos)[ChunkSlot(codec.getX(chunk), codec.getZ(chunk)) := codec.serialize(chunk)]
    requires forall q :: q != ChunkRegion(codec.getX(chunk), codec.getZ(chunk)) ==>
               RegionView(r2, d2, q) == RegionView(r1, d1, q)
    ensures ChunkAt(codec, r2, d2, codec.getX(chunk), codec.getZ(chunk)) == Some(codec.deserialize(codec.serialize(chunk)))
    ensures forall x, z :: (x, z) != (codec.getX(chunk), codec.getZ(chunk)) ==>
              ChunkAt(codec, r2, d2, x, z) == ChunkAt(codec, r1, d1, x, z)
  {
    var cx, cz := codec.getX(chunk), codec.getZ(chunk);
    forall x, z | (x, z) != (cx, cz)
      ensures ChunkAt(codec, r2, d2, x, z) == ChunkAt(codec, r1, d1, x, z)
    {
      if ChunkRegion(x, z) == ChunkRegion(cx, cz) && ChunkSlot(x, z) == ChunkSlot(cx, cz) {
        assert x == RegionIndex(x) * 32 + LocalIndex(x) == cx;
        assert z == RegionIndex(z) * 32 + LocalIndex(z) == cz;
      }
    }
  }

  /** States with the same views find the same chunks along any walk. */
  lemma SameViewSamePresent<C>(codec: Codec<C>, r1: map<RegionPos, Loader>, d1: Directory,
                                r2: map<RegionPos, Loader>, d2: Directory, coords: seq<Coord>)
    requires SameView(r1, d1, r2, d2)
    ensures FilterMap(Reader(codec, r1, d1), coords) == FilterMap(Reader(codec, r2, d2), coords)
  {
    forall i | 0 <= i < |coords|
      ensures Reader(codec, r1, d1)(coords[i]) == Reader(codec, r2, d2)(coords[i])
    {
      SameViewSameChunk(codec, r1, d1, r2, d2, coords[i].0, coords[i].1);
    }
    FilterMapAgree(Reader(codec, r1, d1), Reader(codec, r2, d2), coords);
  }

  /** States with the same views read the same chunks. */
  lemma SameViewSameChunk<C>(codec: Codec<C>, r1: map<RegionPos, Loader>, d1: Directory,
                             r2: map<RegionPos, Loader>, d2: Directory, x: int, z: int)
    requires SameView(r1, d1, r2, d2)
    ensures ChunkAt(codec, r1, d1, x, z) == ChunkAt(codec, r2, d2, x, z)
  {
    assert RegionView(r1, d1, ChunkRegion(x, z)) == RegionView(r2, d2, ChunkRegion(x, z));
  }

  lemma SameViewTrans(r1: map<RegionPos, Loader>, d1: Directory, r2: map<RegionPos, Loader>, d2: Directory,
                      r3: map<RegionPos, Loader>, d3: Directory)
    requires SameView(r1, d1, r2, d2) && SameView(r2, d2, r3, d3)
    ensures SameView(r1, d1, r3, d3)
  {
  }

  /** One pass of the innermost loop of getAllChunks appends what is found at one more coordinate. */
  lemma ColumnStep<C>(codec: Codec<C>, r: map<RegionPos, Loader>, d: Directory,
                      r0: map<RegionPos, Loader>, d0: Directory, r1: map<RegionPos, Loader>, d1: Directory,
                      chunkX: int, rZ: int, rows: nat, chunkZ: int, found: seq<C>, chunk: Option<C>)
    requires chunkZ == rZ + rows
    requires found == FilterMap(Reader(codec, r, d), ColumnVisits(chunkX, rZ, rows))
    requires SameView(r, d, r0, d0)
    requires chunk == ChunkAt(codec, r0, d0, chunkX, chunkZ)
    requires SameView(r0, d0, r1, d1)
    ensures found + Found(chunk) == FilterMap(Reader(codec, r, d), ColumnVisits(chunkX, rZ, rows + 1))
    ensures SameView(r, d, r1, d1)
  {
    SameViewSameChunk(codec, r, d, r0, d0, chunkX, chunkZ);
    SameViewTrans(r, d, r0, d0, r1, d1);
    ColumnVisitsSnoc(chunkX, rZ, rows);
    FilterMapSnoc(Reader(codec, r, d), ColumnVisits(chunkX, rZ, rows), (chunkX, chunkZ));
  }

  /** One pass of the middle loop of getAllChunks appends the chunks of one more column. */
  lemma BlockStep<C>(codec: Codec<C>, r: map<RegionPos, Loader>, d: Directory,
                     r0: map<RegionPos, Loader>, d0: Directory, r1: map<RegionPos, Loader>, d1: Directory,
                     rX: int, rZ: int, columns: nat, chunkX: int, found: seq<C>, column: seq<C>)
    requires chunkX == rX + columns
    requires found == FilterMap(Reader(codec, r, d), BlockVisits(rX, rZ, columns))
    requires SameView(r, d, r0, d0)
    requires column == FilterMap(Reader(codec, r0, d0), ColumnVisits(chunkX, rZ, 32))
    requires SameView(r0, d0, r1, d1)
    ensures found + column == FilterMap(Reader(codec, r, d), BlockVisits(rX, rZ, columns + 1))
    ensures SameView(r, d, r1, d1)
  {
    SameViewSamePresent(codec, r, d, r0, d0, ColumnVisits(chunkX, rZ, 32));
    SameViewTrans(r, d, r0, d0, r1, d1);
    BlockVisitsSnoc(rX, rZ, columns);
    FilterMapAppend(Reader(codec, r, d), BlockVisits(rX, rZ, columns), ColumnVisits(chunkX, rZ, 32));
  }

  /** One pass of the outer loop of getAllChunks appends the chunks of one more region. */
  lemma ListingStep<C>(read: Coord -> Option<C>, regions: seq<(int, int)>, i: nat, chunks: seq<C>, found: seq<C>)
    requires i < |regions|
    requires chunks == FilterMap(read, AllVisits(regions[..i]))
    requires found == FilterMap(read, RegionVisits(regions[i].0, regions[i].1))
    ensures chunks + found == FilterMap(read, AllVisits(regions[..i + 1]))
  {
    AllVisitsStep(regions, i);
    FilterMapAppend(read, AllVisits(regions[..i]), RegionVisits(regions[i].0, regions[i].1));
  }

  /**
   * Caching a loader that presents what the region's file holds keeps every
   * region's view, when the directory changes only at that file and at its
   * backup.
   */
  lemma LoadKeepsViews(regions: map<RegionPos, Loader>, disk: Directory, disk': Directory,
                       pos: RegionPos, loader: Loader, now: int)
    requires WellFormed(regions)
    requires pos !in regions
    requires loader.slots == StoredSlots(disk, RegionPath(pos))
    requires forall f :: f != RegionPath(pos) && f != BackupOf(RegionPath(pos), now) ==>
               (f in disk' <==> f in disk) && (f in disk' ==> disk'[f] == disk[f])
    ensures SameView(regions, disk, regions[pos := loader], disk')
  {
    forall q
      ensures RegionView(regions, disk, q) == RegionView(regions[pos := loader], disk', q)
    {
      if q != pos && q !in regions {
        assert RegionPath(q) != RegionPath(pos) && RegionPath(q) != BackupOf(RegionPath(pos), now);
      }
    }
  }

  /** The provider's mutable state at one moment: the cache, the directory and the log. */
  datatype Snapshot = Snapshot(regions: map<RegionPos, Loader>, disk: Directory, log: seq<LogEntry>)

  /** A file that exists and fails to open as a region. */
  predicate Corrupt(d: Directory, f: FileName)
  {
    f in d && d[f].Garbage?
  }

  /**
   * The state loadRegion leaves for region `pos` at time `now`: a cached
   * region changes nothing; otherwise the region is cached with a loader for
   * its own file, stamped `now`, presenting the stored slots, and no other key
   * changes; a corrupted file is moved to its backup, replaced by an empty
   * region, and reported by two log lines; a readable or missing file is
   * opened (a missing one created empty) and nothing is logged.
   */
  function AfterLoad(s: Snapshot, pos: RegionPos, now: int): (t: Snapshot)
    ensures pos in t.regions && t.regions[pos].slots == RegionView(s.regions, s.disk, pos)
    ensures pos !in s.regions ==> t.regions[pos].path == RegionPath(pos) && t.regions[pos].lastUsed == now
    ensures forall q :: q in s.regions ==> q in t.regions && t.regions[q] == s.regions[q]
    ensures |s.log| <= |t.log| && t.log[..|s.log|] == s.log
  {
    var path := RegionPath(pos);
    if pos in s.regions then s
    else
      var loader := Loader(path, pos.x, pos.z, StoredSlots(s.disk, path), now);
      if Corrupt(s.disk, path) then
        Snapshot(s.regions[pos := loader],
                 s.disk[BackupOf(path, now) := s.disk[path]][path := RegionData(map[])],
                 s.log + [CorruptionDetected(path), BackedUp(path, BackupOf(path, now))])
      else
        Snapshot(s.regions[pos := loader], s.disk[path := RegionData(StoredSlots(s.disk, path))], s.log)
  }

  /** Loading a region a second time changes nothing: loadRegion is insert-if-absent. */
  lemma AfterLoadIdempotent(s: Snapshot, pos: RegionPos, now: int, later: int)
    ensures AfterLoad(AfterLoad(s, pos, now), pos, later) == AfterLoad(s, pos, now)
  {
  }

  /**
   * One chunk of a region's column loads that region: after the first it is
   * cached and loading it again changes nothing.
   */
  lemma ColumnLoadStep(start: Snapshot, pos: RegionPos, s0: Snapshot, rows: nat, chunkX: int, chunkZ: int, now: int)
    requires pos.x == RegionIndex(chunkX)
    requires ShiftLeft(pos.z, 5) <= chunkZ < ShiftLeft(pos.z, 5) + 32
    requires s0 == if rows == 0 then start else AfterLoad(start, pos, now)
    ensures AfterLoad(s0, ChunkRegion(chunkX, chunkZ), now) == AfterLoad(start, pos, now)
  {
    RegionBlock(pos.z, chunkZ);
    AfterLoadIdempotent(start, pos, now, now);
  }

  /**
   * One column of a region's block loads that region: after the first it is
   * cached and loading it again changes nothing.
   */
  lemma BlockLoadStep(start: Snapshot, pos: RegionPos, s0: Snapshot, columns: nat, chunkX: int, now: int)
    requires ShiftLeft(pos.x, 5) <= chunkX < ShiftLeft(pos.x, 5) + 32
    requires s0 == if columns == 0 then start else AfterLoad(start, pos, now)
    ensures AfterLoad(s0, RegionPos(RegionIndex(chunkX), pos.z), now) == AfterLoad(start, pos, now)
  {
    RegionBlock(pos.x, chunkX);
    AfterLoadIdempotent(start, pos, now, now);
  }

  /** Region `(x, z)` is cached in the second state and was not in the first. */
  predicate NewlyCached(r0: map<RegionPos, Loader>, r1: map<RegionPos, Loader>, x: int, z: int)
  {
    RegionPos(x, z) in r1 && RegionPos(x, z) !in r0
  }

  /**
   * A file after any number of region loads at time `now`: the file of a
   * newly loaded region holds its stored slots (none if it was corrupted or
   * missing), the `.bak.<now>` backup of a newly loaded corrupted region
   * holds the corrupted bytes, and every other file is as it was.
   */
  ghost predicate FileAfterLoads(f: FileName, s0: Snapshot, s1: Snapshot, now: int)
  {
    if f.RegionFile? && NewlyCached(s0.regions, s1.regions, f.x, f.z) then
      f in s1.disk && s1.disk[f] == RegionData(StoredSlots(s0.disk, f))
    else if f.Backup? && f.time == now && NewlyCached(s0.regions, s1.regions, f.x, f.z) && Corrupt(s0.disk, RegionFile(f.x, f.z)) then
      f in s1.disk && s1.disk[f] == s0.disk[RegionFile(f.x, f.z)]
    else
      (f in s1.disk <==> f in s0.disk) && (f in s1.disk ==> s1.disk[f] == s0.disk[f])
  }

  /** A line that corruption recovery writes for a region newly loaded from a corrupted file. */
  ghost predicate RecoveryLine(e: LogEntry, s0: Snapshot, s1: Snapshot, now: int)
  {
    && e.file == RegionFile(e.file.x, e.file.z)
    && NewlyCached(s0.regions, s1.regions, e.file.x, e.file.z)
    && Corrupt(s0.disk, e.file)
    && (e.BackedUp? ==> e.backup == Backup(e.file.x, e.file.z, now))
  }

  /**
   * `s1` is `s0` after loading, at time `now`, some of the regions `ps`: the
   * cached loaders stay as they were, each new one is a loader for a region
   * of `ps`, stamped `now`, presenting its stored slots; files change only as
   * FileAfterLoads says; and the log only gains recovery lines.
   */
  ghost predicate LoadsOnly(s0: Snapshot, s1: Snapshot, ps: set<RegionPos>, now: int)
  {
    && (forall pos :: pos in s0.regions ==> pos in s1.regions && s1.regions[pos] == s0.regions[pos])
    && (forall pos :: pos in s1.regions && pos !in s0.regions ==>
          pos in ps && s1.regions[pos] == Loader(RegionPath(pos), pos.x, pos.z, StoredSlots(s0.disk, RegionPath(pos)), now))
    && (forall f :: FileAfterLoads(f, s0, s1, now))
    && |s0.log| <= |s1.log| && s1.log[..|s0.log|] == s0.log
    && (forall k :: |s0.log| <= k < |s1.log| ==> RecoveryLine(s1.log[k], s0, s1, now))
  }

  /** Nothing loaded yet. */
  lemma LoadsNothing(s: Snapshot, ps: set<RegionPos>, now: int)
    ensures LoadsOnly(s, s, ps, now)
  {
    assert s.log[..|s.log|] == s.log;
  }

  /** One loadRegion of a region in `ps` is a load of regions of `ps`. */
  lemma AfterLoadLoadsOnly(s: Snapshot, pos: RegionPos, ps: set<RegionPos>, now: int)
    requires pos in ps
    ensures LoadsOnly(s, AfterLoad(s, pos, now), ps, now)
  {
    var t := AfterLoad(s, pos, now);
    if pos in s.regions {
      LoadsNothing(s, ps, now);
    } else {
      var path := RegionPath(pos);
      forall f
        ensures FileAfterLoads(f, s, t, now)
      {
        if f.RegionFile? && NewlyCached(s.regions, t.regions, f.x, f.z) {
          assert f == path;
        } else if f.Backup? && f.time == now && NewlyCached(s.regions, t.regions, f.x, f.z) {
          assert f == BackupOf(path, now);
        }
      }
    }
  }

  /** Two rounds of loads at the same time, from `ps` and then from `qs` within `ps`, are one round from `ps`. */
  lemma LoadsOnlyTrans(s0: Snapshot, s1: Snapshot, s2: Snapshot, ps: set<RegionPos>, qs: set<RegionPos>, now: int)
    requires LoadsOnly(s0, s1, ps, now) && LoadsOnly(s1, s2, qs, now) && qs <= ps
    ensures LoadsOnly(s0, s2, ps, now)
  {
    forall f
      ensures FileAfterLoads(f, s0, s2, now)
    {
      assert FileAfterLoads(f, s0, s1, now) && FileAfterLoads(f, s1, s2, now);
      if f.Backup? {
        assert FileAfterLoads(RegionFile(f.x, f.z), s0, s1, now);
      }
    }
    forall k | |s0.log| <= k < |s2.log|
      ensures RecoveryLine(s2.log[k], s0, s2, now)
    {
      if k < |s1.log| {
        assert s2.log[k] == s1.log[k];
        assert RecoveryLine(s1.log[k], s0, s1, now);
      } else {
        var e := s2.log[k];
        assert RecoveryLine(e, s1, s2, now);
        assert FileAfterLoads(e.file, s0, s1, now);
      }
    }
    forall pos | pos in s2.regions && pos !in s0.regions
      ensures pos in ps && s2.regions[pos] == Loader(RegionPath(pos), pos.x, pos.z, StoredSlots(s0.disk, RegionPath(pos)), now)
    {
      if pos !in s1.regions {
        assert FileAfterLoads(RegionPath(pos), s0, s1, now);
      }
    }
    assert s2.log[..|s0.log|] == s2.log[..|s1.log|][..|s0.log|];
  }

  /** A round of loads followed by one more loadRegion of a region in `ps`. */
  lemma LoadStep(s0: Snapshot, s1: Snapshot, pos: RegionPos, ps: set<RegionPos>, now: int)
    requires LoadsOnly(s0, s1, ps, now) && pos in ps
    ensures LoadsOnly(s0, AfterLoad(s1, pos, now), ps, now)
  {
    AfterLoadLoadsOnly(s1, pos, ps, now);
    LoadsOnlyTrans(s0, s1, AfterLoad(s1, pos, now), ps, ps, now);
  }

  /** The regions the iterator of getAllChunks yields. */
  function RegionsOf(matches: seq<(int, int)>): set<RegionPos>
  {
    set m | m in matches :: RegionPos(m.0, m.1)
  }

  /**
   * The state after loadRegion of each matched region in turn, at time
   * `now`: what the loops of getAllChunks leave, since reading the chunks of
   * a region loads that region once.
   */
  function LoadAll(s: Snapshot, ms: seq<(int, int)>, now: int): (t: Snapshot)
    ensures |s.log| <= |t.log| && t.log[..|s.log|] == s.log
  {
    if ms == [] then s
    else
      var t := LoadAll(s, ms[..|ms| - 1], now);
      assert t.log[..|s.log|] == s.log;
      AfterLoad(t, RegionPos(ms[|ms| - 1].0, ms[|ms| - 1].1), now)
  }

  lemma LoadAllStep(s: Snapshot, ms: seq<(int, int)>, i: nat, now: int)
    requires i < |ms|
    ensures LoadAll(s, ms[..i + 1], now) == AfterLoad(LoadAll(s, ms[..i], now), RegionPos(ms[i].0, ms[i].1), now)
  {
    assert ms[..i + 1][..i] == ms[..i];
  }

  /** Loading the matched regions loads only matched regions. */
  lemma {:induction false} LoadAllLoadsOnly(s: Snapshot, ms: seq<(int, int)>, now: int)
    ensures LoadsOnly(s, LoadAll(s, ms, now), RegionsOf(ms), now)
  {
    if ms == [] {
      LoadsNothing(s, {}, now);
    } else {
      var front, m := ms[..|ms| - 1], ms[|ms| - 1];
      assert ms == front + [m];
      LoadAllLoadsOnly(s, front, now);
      LoadsNothing(s, RegionsOf(ms), now);
      LoadsOnlyTrans(s, s, LoadAll(s, front, now), RegionsOf(ms), RegionsOf(front), now);
      LoadStep(s, LoadAll(s, front, now), RegionPos(m.0, m.1), RegionsOf(ms), now);
    }
  }

  /** Every matched region is cached afterwards. */
  lemma {:induction false} LoadAllCaches(s: Snapshot, ms: seq<(int, int)>, now: int)
    ensures forall m :: m in ms ==> RegionPos(m.0, m.1) in LoadAll(s, ms, now).regions
  {
    if ms != [] {
      var front := ms[..|ms| - 1];
      assert ms == front + [ms[|ms| - 1]];
      LoadAllCaches(s, front, now);
    }
  }

  /** A log that extends another keeps what the other gained after position `j`. */
  lemma GainedStays(a: seq<LogEntry>, b: seq<LogEntry>, j: nat, e: LogEntry)
    requires j <= |a| <= |b| && b[..|a|] == a && e in a[j..]
    ensures e in b[j..]
  {
    var k :| j <= k < |a| && a[k] == e;
    assert b[j..][k - j] == b[..|a|][k];
  }

  /** The first load of a region whose file is corrupted logs the detection and the backup. */
  lemma FirstLoadLogs(s: Snapshot, t: Snapshot, pos: RegionPos, now: int)
    requires pos !in t.regions && Corrupt(t.disk, RegionPath(pos))
    requires |s.log| <= |t.log|
    ensures var log := AfterLoad(t, pos, now).log;
            && CorruptionDetected(RegionPath(pos)) in log[|s.log|..]
            && BackedUp(RegionPath(pos), Backup(pos.x, pos.z, now)) in log[|s.log|..]
  {
    var log := AfterLoad(t, pos, now).log;
    assert log[|s.log|..][|t.log| - |s.log|] == CorruptionDetected(RegionPath(pos));
    assert log[|s.log|..][|t.log| - |s.log| + 1] == BackedUp(RegionPath(pos), Backup(pos.x, pos.z, now));
  }

  /**
   * Every matched region that was not cached and whose file was present but
   * corrupted at the start has its corruption and its backup logged:
   * recovery is never silent.
   */
  lemma {:induction false} LoadAllLogsRecovery(s: Snapshot, ms: seq<(int, int)>, now: int)
    ensures forall m :: m in ms && RegionPos(m.0, m.1) !in s.regions && Corrupt(s.disk, RegionFile(m.0, m.1)) ==>
              && CorruptionDetected(RegionFile(m.0, m.1)) in LoadAll(s, ms, now).log[|s.log|..]
              && BackedUp(RegionFile(m.0, m.1), Backup(m.0, m.1, now)) in LoadAll(s, ms, now).log[|s.log|..]
  {
    if ms != [] {
      var front, m := ms[..|ms| - 1], ms[|ms| - 1];
      assert ms == front + [m];
      var t := LoadAll(s, front, now);
      var u := LoadAll(s, ms, now);
      var pos := RegionPos(m.0, m.1);
      assert u == AfterLoad(t, pos, now);
      LoadAllLogsRecovery(s, front, now);
      LoadAllLoadsOnly(s, front, now);
      forall n | n in ms && RegionPos(n.0, n.1) !in s.regions && Corrupt(s.disk, RegionFile(n.0, n.1))
        ensures CorruptionDetected(RegionFile(n.0, n.1)) in u.log[|s.log|..]
        ensures BackedUp(RegionFile(n.0, n.1), Backup(n.0, n.1, now)) in u.log[|s.log|..]
      {
        if n in front {
          GainedStays(t.log, u.log, |s.log|, CorruptionDetected(RegionFile(n.0, n.1)));
          GainedStays(t.log, u.log, |s.log|, BackedUp(RegionFile(n.0, n.1), Backup(n.0, n.1, now)));
        } else {
          assert n == m;
          assert pos !in RegionsOf(front);
          assert FileAfterLoads(RegionPath(pos), s, t, now);
          FirstLoadLogs(s, t, pos, now);
        }
      }
    }
  }

  class RegionLevelProvider<C> {
    const layout: Layout
    const codec: Codec<C>
    /** `$regions`: the open loaders, at most one per region. */
    var regions: map<RegionPos, Loader>
    /** The files under `$this->path`, region directory included. */
    var disk: Directory
    /** What the provider wrote to the error log. */
    var log: seq<LogEntry>

    ghost predicate Valid()
      reads this
    {
      ValidExt(layout.ext) && WellFormed(regions)
    }

    constructor (root: string, ext: string, codec: Codec<C>, disk: Directory)
      requires ValidExt(ext)
      ensures Valid()
      ensures layout == Layout(root, ext) && this.codec == codec
      ensures regions == map[] && this.disk == disk && log == []
    {
      layout := Layout(root, ext);
      this.codec := codec;
      regions := map[];
      this.disk := disk;
      log := [];
    }

    /** pathToRegion: the path of a region's file, whose name the enumeration reads back as that region. */
    function PathToRegion(regionX: int, regionZ: int): (path: string)
      requires ValidExt(layout.ext)
      ensures |path| >= |layout.root| + 7 && path[..|layout.root| + 7] == layout.root + "region/"
      ensures MatchRegionFileName(path[|layout.root| + 7..], layout.ext) == Some((regionX, regionZ))
    {
      var path := RegionNames.PathToRegion(layout.root, regionX, regionZ, layout.ext);
      assert path[|layout.root| + 7..] == RegionFileName(regionX, regionZ, layout.ext);
      MatchRoundTrip(regionX, regionZ, layout.ext);
      path
    }

    /** A cached loader serves the file at pathToRegion of its coordinates. */
    lemma LoaderServesPath(regionX: int, regionZ: int)
      requires Valid() && RegionPos(regionX, regionZ) in regions
      ensures PathOf(layout.root, layout.ext, regions[RegionPos(regionX, regionZ)].path) == PathToRegion(regionX, regionZ)
    {
    }

    /** getRegion: the cached loader of a region, or null. */
    function GetRegion(regionX: int, regionZ: int): (region: Option<Loader>)
      reads this
      ensures region.Some? <==> RegionPos(regionX, regionZ) in regions
      ensures region.Some? ==> region.value == regions[RegionPos(regionX, regionZ)]
      ensures Valid() && region.Some? ==> region.value.path == RegionFile(regionX, regionZ)
    {
      var index := RegionPos(regionX, regionZ);
      if index in regions then Some(regions[index]) else None
    }

    /**
     * loadRegion: opens and caches the region's loader unless one is cached.
     * A corrupted file is closed without writing, moved to
     * `<path>.bak.<now>`, and replaced by a fresh empty region.
     */
    method LoadRegion(regionX: int, regionZ: int, now: int)
      requires Valid()
      modifies this
      ensures Valid()
      ensures Snapshot(regions, disk, log) == AfterLoad(Snapshot(old(regions), old(disk), old(log)), RegionPos(regionX, regionZ), now)
      ensures SameView(old(regions), old(disk), regions, disk)
    {
      var index := RegionPos(regionX, regionZ);
      if index !in regions {
        var path := RegionFile(regionX, regionZ);
        var region := NewLoader(path, regionX, regionZ);
        var opening := Open(region, disk, now);
        if opening.Corrupted? {
          log := log + [CorruptionDetected(path)];
          disk := CloseLoader(disk, region, false); // do not write anything to the file
          var backupPath := BackupOf(path, now);
          disk := Rename(disk, path, backupPath);
          log := log + [BackedUp(path, backupPath)];
          region := NewLoader(path, regionX, regionZ);
          opening := Open(region, disk, now); // the file is gone, so this creates an empty region
        }
        LoadKeepsViews(regions, old(disk), opening.dir, index, opening.loader, now);
        regions := regions[index := opening.loader];
        disk := opening.dir;
      }
    }

    /**
     * doGarbageCollection: closes, writing them back, and removes the loaders
     * last used at or before `now - 300`; no region reads differently after.
     */
    method DoGarbageCollection(now: int)
      requires Valid()
      modifies this
      ensures Valid()
      ensures regions == map pos | pos in old(regions) && old(regions)[pos].lastUsed > now - 300 :: old(regions)[pos]
      ensures forall pos :: pos in Idle(old(regions), now - 300) ==>
                old(regions)[pos].path in disk && disk[old(regions)[pos].path] == RegionData(old(regions)[pos].slots)
      ensures forall p :: !FileOfAny(p, Idle(old(regions), now - 300)) ==>
                (p in disk <==> p in old(disk)) && (p in disk ==> disk[p] == old(disk)[p])
      ensures log == old(log)
      ensures SameView(old(regions), old(disk), regions, disk)
    {
      var limit := now - 300;
      ghost var before, stored := regions, disk;
      ghost var closed: set<RegionPos> := {};
      var pending := regions.Keys;
      while pending != {}
        invariant pending <= before.Keys
        invariant forall pos :: pos in closed <==> pos in before && pos !in pending && before[pos].lastUsed <= limit
        invariant forall pos :: pos in regions <==> pos in before && (pos in pending || before[pos].lastUsed > limit)
        invariant forall pos :: pos in regions ==> regions[pos] == before[pos]
        invariant forall pos :: pos in closed ==> before[pos].path in disk && disk[before[pos].path] == RegionData(before[pos].slots)
        invariant forall p :: !FileOfAny(p, closed) ==> (p in disk <==> p in stored) && (p in disk ==> disk[p] == stored[p])
        invariant log == old(log)
        decreases pending
      {
        var index :| index in pending;
        var region := regions[index];
        if region.lastUsed <= limit {
          disk := CloseLoader(disk, region, true);
          regions := regions - {index};
          closed := closed + {index};
        }
        pending := pending - {index};
      }
      assert closed == Idle(before, limit);
      assert SameView(before, stored, regions, disk);
    }

    /** close: closes, writing them back, and removes every loader; no region reads differently after. */
    method Close()
      requires Valid()
      modifies this
      ensures Valid()
      ensures regions == map[]
      ensures forall pos :: pos in old(regions) ==>
                old(regions)[pos].path in disk && disk[old(regions)[pos].path] == RegionData(old(regions)[pos].slots)
      ensures forall p :: !FileOfAny(p, old(regions).Keys) ==>
                (p in disk <==> p in old(disk)) && (p in disk ==> disk[p] == old(disk)[p])
      ensures log == old(log)
      ensures SameView(old(regions), old(disk), regions, disk)
    {
      ghost var before, stored := regions, disk;
      ghost var closed: set<RegionPos> := {};
      var pending := regions.Keys;
      while pending != {}
        invariant pending <= before.Keys
        invariant closed == before.Keys - pending
        invariant forall pos :: pos in regions <==> pos in pending
        invariant forall pos :: pos in regions ==> regions[pos] == before[pos]
        invariant forall pos :: pos in closed ==> before[pos].path in disk && disk[before[pos].path] == RegionData(before[pos].slots)
        invariant forall p :: !FileOfAny(p, closed) ==> (p in disk <==> p in stored) && (p in disk ==> disk[p] == stored[p])
        invariant log == old(log)
        decreases pending
      {
        var index :| index in pending;
        var region := regions[index];
        disk := CloseLoader(disk, region, true);
        regions := regions - {index};
        closed := closed + {index};
        pending := pending - {index};
      }
      assert closed == before.Keys;
      assert SameView(before, stored, regions, disk);
    }

    /**
     * readChunk: the chunk decoded from its slot of its region, or null when
     * the slot is empty.  The region is loaded on the way; no region reads
     * differently after.
     */
    method ReadChunk(chunkX: int, chunkZ: int, now: int) returns (chunk: Option<C>)
      requires Valid()
      modifies this
      ensures Valid()
      ensures chunk == ChunkAt(codec, old(regions), old(disk), chunkX, chunkZ)
      ensures ChunkRegion(chunkX, chunkZ) in regions
      ensures chunk.None? <==> ReadSlot(regions[ChunkRegion(chunkX, chunkZ)], ChunkSlot(chunkX, chunkZ)).None?
      ensures chunk.Some? ==>
                chunk.value == codec.deserialize(ReadSlot(regions[ChunkRegion(chunkX, chunkZ)], ChunkSlot(chunkX, chunkZ)).value)
      ensures Snapshot(regions, disk, log) == AfterLoad(Snapshot(old(regions), old(disk), old(log)), ChunkRegion(chunkX, chunkZ), now)
      ensures SameView(old(regions), old(disk), regions, disk)
    {
      var (regionX, regionZ) := GetRegionIndex(chunkX, chunkZ);
      LoadRegion(regionX, regionZ, now);
      var region := GetRegion(regionX, regionZ);
      var chunkData := ReadSlot(region.value, (LocalIndex(chunkX), LocalIndex(chunkZ)));
      if chunkData.Some? {
        chunk := Some(codec.deserialize(chunkData.value));
      } else {
        chunk := None;
      }
      assert RegionView(old(regions), old(disk), ChunkRegion(chunkX, chunkZ)) == region.value.slots;
    }

    /**
     * writeChunk: stores the chunk's encoding in its slot of its region; every
     * other slot of every region reads as before.
     */
    method WriteChunk(chunk: C, now: int)
      requires Valid()
      modifies this
      ensures Valid()
      ensures var pos := ChunkRegion(codec.getX(chunk), codec.getZ(chunk));
              pos in regions &&
              regions[pos].slots ==
                RegionView(old(regions), old(disk), pos)[ChunkSlot(codec.getX(chunk), codec.getZ(chunk)) := codec.serialize(chunk)]
      ensures forall q :: q != ChunkRegion(codec.getX(chunk), codec.getZ(chunk)) ==>
                RegionView(regions, disk, q) == RegionView(old(regions), old(disk), q)
      ensures ChunkAt(codec, regions, disk, codec.getX(chunk), codec.getZ(chunk)) == Some(codec.deserialize(codec.serialize(chunk)))
      ensures forall x, z :: (x, z) != (codec.getX(chunk), codec.getZ(chunk)) ==>
                ChunkAt(codec, regions, disk, x, z) == ChunkAt(codec, old(regions), old(disk), x, z)
      ensures var pos := ChunkRegion(codec.getX(chunk), codec.getZ(chunk));
              var loaded := AfterLoad(Snapshot(old(regions), old(disk), old(log)), pos, now);
              && regions == loaded.regions[pos := WriteSlot(loaded.regions[pos], ChunkSlot(codec.getX(chunk), codec.getZ(chunk)), codec.serialize(chunk))]
              && disk == loaded.disk && log == loaded.log
    {
      var chunkX := codec.getX(chunk);
      var chunkZ := codec.getZ(chunk);
      var (regionX, regionZ) := GetRegionIndex(chunkX, chunkZ);
      LoadRegion(regionX, regionZ, now);
      var region := GetRegion(regionX, regionZ);
      var index := RegionPos(regionX, regionZ);
      regions := regions[index := WriteSlot(region.value, (LocalIndex(chunkX), LocalIndex(chunkZ)), codec.serialize(chunk))];
      ReadAfterWrite(codec, old(regions), old(disk), regions, disk, chunk);
    }

    /**
     * The innermost loop of getAllChunks: reads the chunks `(chunkX, z)` for
     * `z` from `regionZ << 5` to `(regionZ << 5) + 31` and keeps those
     * present; only the one region holding them is loaded.
     */
    method ReadColumn(chunkX: int, regionZ: int, now: int) returns (found: seq<C>)
      requires Valid()
      modifies this
      ensures Valid()
      ensures found == FilterMap(Reader(codec, old(regions), old(disk)), ColumnVisits(chunkX, ShiftLeft(regionZ, 5), 32))
      ensures SameView(old(regions), old(disk), regions, disk)
      ensures Snapshot(regions, disk, log) == AfterLoad(Snapshot(old(regions), old(disk), old(log)),
                                                        RegionPos(RegionIndex(chunkX), regionZ), now)
    {
      found := [];
      ghost var rows: nat := 0;
      ghost var start := Snapshot(regions, disk, log);
      ghost var pos := RegionPos(RegionIndex(chunkX), regionZ);
      var rZ := ShiftLeft(regionZ, 5);
      var chunkZ := rZ;
      while chunkZ < rZ + 32
        invariant chunkZ == rZ + rows && rows <= 32
        invariant Valid()
        invariant found == FilterMap(Reader(codec, old(regions), old(disk)), ColumnVisits(chunkX, rZ, rows))
        invariant SameView(old(regions), old(disk), regions, disk)
        invariant Snapshot(regions, disk, log) == if rows == 0 then start else AfterLoad(start, pos, now)
      {
        ghost var r0, d0, s0 := regions, disk, Snapshot(regions, disk, log);
        var chunk := ReadChunk(chunkX, chunkZ, now);
        ColumnLoadStep(start, pos, s0, rows, chunkX, chunkZ, now);
        ColumnStep(codec, old(regions), old(disk), r0, d0, regions, disk, chunkX, rZ, rows, chunkZ, found, chunk);
        found := found + Found(chunk); // yields the chunk only when it is not null
        chunkZ := chunkZ + 1;
        rows := rows + 1;
      }
      assert rows == 32;
      assert ColumnVisits(chunkX, rZ, rows) == ColumnVisits(chunkX, ShiftLeft(regionZ, 5), 32);
    }

    /**
     * The two inner loops of getAllChunks: reads every chunk of region
     * `(regionX, regionZ)`, x in the outer loop and z in the inner one, and
     * keeps those present; only that region is loaded.
     */
    method ReadRegionBlock(regionX: int, regionZ: int, now: int) returns (found: seq<C>)
      requires Valid()
      modifies this
      ensures Valid()
      ensures found == FilterMap(Reader(codec, old(regions), old(disk)), RegionVisits(regionX, regionZ))
      ensures SameView(old(regions), old(disk), regions, disk)
      ensures Snapshot(regions, disk, log) == AfterLoad(Snapshot(old(regions), old(disk), old(log)),
                                                        RegionPos(regionX, regionZ), now)
    {
      found := [];
      ghost var start := Snapshot(regions, disk, log);
      ghost var pos := RegionPos(regionX, regionZ);
      var rX := ShiftLeft(regionX, 5);
      var rZ := ShiftLeft(regionZ, 5);
      ghost var columns: nat := 0;
      var chunkX := rX;
      while chunkX < rX + 32
        invariant chunkX == rX + columns && columns <= 32
        invariant Valid()
        invariant found == FilterMap(Reader(codec, old(regions), old(disk)), BlockVisits(rX, rZ, columns))
        invariant SameView(old(regions), old(disk), regions, disk)
        invariant Snapshot(regions, disk, log) == if columns == 0 then start else AfterLoad(start, pos, now)
      {
        ghost var r0, d0, s0 := regions, disk, Snapshot(regions, disk, log);
        var column := ReadColumn(chunkX, regionZ, now);
        BlockLoadStep(start, pos, s0, columns, chunkX, now);
        BlockStep(codec, old(regions), old(disk), r0, d0, regions, disk, rX, rZ, columns, chunkX, found, column);
        found := found + column;
        chunkX := chunkX + 1;
        columns := columns + 1;
      }
      assert columns == 32;
      assert RegionVisits(regionX, regionZ) == BlockVisits(rX, rZ, 32);
    }

    /**
     * getAllChunks: for each region the listing's matching names give, in
     * listing order, the chunks of that region's block; what it returns is
     * what reading each visited coordinate at the start would give.
     */
    method GetAllChunks(listing: seq<string>, now: int) returns (chunks: seq<C>)
      requires Valid()
      modifies this
      ensures Valid()
      ensures chunks == FilterMap(Reader(codec, old(regions), old(disk)), AllVisits(RegexMatches(listing, layout.ext)))
      ensures SameView(old(regions), old(disk), regions, disk)
      ensures Snapshot(regions, disk, log) == LoadAll(Snapshot(old(regions), old(disk), old(log)), RegexMatches(listing, layout.ext), now)
      ensures LoadsOnly(Snapshot(old(regions), old(disk), old(log)), Snapshot(regions, disk, log),
                        RegionsOf(RegexMatches(listing, layout.ext)), now)
    {
      var matches := RegexMatches(listing, layout.ext);
      chunks := [];
      ghost var start := Snapshot(regions, disk, log);
      var i := 0;
      while i < |matches|
        invariant 0 <= i <= |matches|
        invariant Valid()
        invariant chunks == FilterMap(Reader(codec, old(regions), old(disk)), AllVisits(matches[..i]))
        invariant SameView(old(regions), old(disk), regions, disk)
        invariant Snapshot(regions, disk, log) == LoadAll(start, matches[..i], now)
      {
        var (regionX, regionZ) := matches[i];
        ghost var r0, d0 := regions, disk;
        var found := ReadRegionBlock(regionX, regionZ, now);
        LoadAllStep(start, matches, i, now);
        SameViewSamePresent(codec, old(regions), old(disk), r0, d0, RegionVisits(regionX, regionZ));
        SameViewTrans(old(regions), old(disk), r0, d0, regions, disk);
        ListingStep(Reader(codec, old(regions), old(disk)), matches, i, chunks, found);
        chunks := chunks + found;
        i := i + 1;
      }
      assert matches[..i] == matches;
      LoadAllLoadsOnly(start, matches, now);
    }
  }
}
