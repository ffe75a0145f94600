# RegionLevelProvider, modelled in Dafny

This project models the core of PocketMine-MP's region-based world storage,
`RegionLevelProvider`:

- the chunk coordinate arithmetic (`>> 5`, `& 0x1f`, `<< 5`);
- the region file names that `pathToRegion` writes and that `getAllChunks`
  reads back with its regular expression;
- the cache `$regions` of open region loaders: `getRegion`, `loadRegion` and
  its corruption recovery, `doGarbageCollection` and `close`;
- `readChunk` and `writeChunk`, which route a chunk through the cache to one
  slot of one region;
- the enumeration `getAllChunks`;
- the format probe `isValid`.

The provider is a class, `RegionProvider.RegionLevelProvider`. It has three
fields:

- `regions`, the cache, keyed by region coordinates;
- `disk`, the world directory;
- `log`, what the provider writes to the error log.

The world directory maps file names to file contents. A file content is
either a readable region, given as a map from slot to bytes (the provider
only reads and writes slots in [0, 31] x [0, 31]), or bytes that fail to
open as a region. Time (`time()`) is the parameter `now` of each
operation. The chunk codec (`serializeChunk`, `deserializeChunk`) and a
chunk's own coordinates are uninterpreted functions of a `Codec` value.

## Structure

The files are `wrappers.dfy`, `coords.dfy`, `region_names.dfy`,
`region_files.dfy`, `filter_map.dfy`, `enumeration.dfy`,
`format_probe.dfy` and `provider.dfy`.

- `Coords` defines `>>` and `&` bit by bit on the two's-complement
  representation. It proves that the shift is floor division and the mask is
  the non-negative remainder, for negative coordinates too.
- `RegionNames` covers the file names:
  - the decimal rendering of integers;
  - the name `r.<x>.<z>.<ext>`;
  - the regex matcher of `getAllChunks`, including PCRE's `$`, which also
    matches before a final newline;
  - the backup name `<path>.bak.<time>`.

  It proves four things about them:
  - the matcher reads back every name `pathToRegion` writes;
  - distinct regions get distinct paths;
  - distinct backups get distinct paths;
  - a backup path is never a region path.
- `RegionFiles` stands for `RegionLoader`, whose code is not part of this
  model. A loader is the file it serves, its coordinates, its slots and its
  `lastUsed` stamp. The directory is keyed by the two kinds of file the
  provider names, a region file and its backup, as structured values.
  `PathOfInjective` proves that distinct structured names are distinct path
  strings, for an extension of lower-case letters, so keying the directory
  this way conflates no two files the provider names.

  `NewLoader`, `Open`, `CloseLoader`, `Rename`, `ReadSlot` and `WriteSlot`
  are the interface the provider assumes of `RegionLoader` and of PHP's
  `rename`. Each of them is a definition of that assumption, and its
  `ensures` spell the assumption out. They are the premises of the
  provider's contracts, not properties proved about the source:
  - `open` creates a missing file empty, loads a readable one, and throws
    on a corrupted one;
  - `close(true)` writes the slots back, and `close(false)` writes nothing;
  - `rename` moves the content and touches no other file;
  - a slot reads as null when it is empty, and otherwise as its bytes;
  - a slot write changes only that slot.
- `FilterMaps` defines one generic "keep the defined results along a
  sequence" operation. It is used twice:
  - for the `RegexIterator` in `GET_MATCH` mode, from names to coordinates;
  - for the generator of `getAllChunks`, from coordinates to present chunks.
- `Enumeration` gives the order in which `getAllChunks` visits coordinates.
- `FormatProbe` is `isValid`.
- `RegionProvider` is the class and the specification of what every chunk
  reads as. `ChunkAt` reads the slot of the cached loader if there is one,
  and otherwise the slot a freshly opened loader would present.

### Main properties

- `loadRegion`, garbage collection, `close` and reads keep what every chunk
  reads as (`SameView`).
- A read changes cache, directory and log exactly as loading the regions it
  reads from does (`AfterLoad`, `LoadAll`), and so only by loading them
  (`LoadsOnly`).
- A write changes what one chunk reads as, and to exactly the decoding of
  its encoding.
- `getAllChunks` returns what reading each visited coordinate in the initial
  state would give.

### Loops

The loops of `doGarbageCollection`, `close`, `isValid` and `getAllChunks`
are `while` loops with invariants. The innermost loop appends `Found(chunk)`,
which is the chunk when it is not null and nothing otherwise; this is the
source's `if ($chunk !== null) yield $chunk` as one expression. The nested loops of `getAllChunks` are
split into the methods `ReadColumn` (inner loop), `ReadRegionBlock` (middle
loop) and `GetAllChunks` (the `foreach` over the iterator). Each method
carries the invariant of its own loop.

## Model

| member | source | states |
|---|---|---|
| Coords.ShiftMaskSplit | src/pocketmine/level/format/io/region/RegionLevelProvider.php:188-189 | for every signed x, `(x >> n) * 2^n + (x & (2^n - 1)) == x`, and the mask lies in `[0, 2^n)` |
| Coords.RegionIndex | src/pocketmine/level/format/io/region/RegionLevelProvider.php:188-189 | `chunk >> 5` is the region r with `r * 32 <= chunk < r * 32 + 32` |
| Coords.LocalIndex | src/pocketmine/level/format/io/region/RegionLevelProvider.php:261 | `chunk & 0x1f` lies in `[0, 31]` and `(chunk >> 5) * 32 + (chunk & 0x1f) == chunk` |
| Coords.GetRegionIndex | src/pocketmine/level/format/io/region/RegionLevelProvider.php:187-190 | both out-parameters are the regions whose 32-chunk spans contain chunkX and chunkZ |
| Coords.RegionSlotUnique | src/pocketmine/level/format/io/region/RegionLevelProvider.php:276 | a region and an in-range slot that rebuild a chunk are that chunk's shift and mask, so the mapping is one to one |
| Coords.RegionIndexIsFloor | src/pocketmine/level/format/io/region/RegionLevelProvider.php:188-189 | the shift is floor division by 32 and the mask is the non-negative remainder, for every signed input |
| Coords.NegativeExamples | src/pocketmine/level/format/io/region/RegionLevelProvider.php:188 | -33 goes to region -2, slot 31; -1 to region -1, slot 31; -32 to region -1, slot 0; 31 to region 0 and 32 to region 1 |
| Coords.RegionBlock | src/pocketmine/level/format/io/region/RegionLevelProvider.php:290-294 | the chunks from `region << 5` to `(region << 5) + 31` are exactly those whose `>> 5` is that region |
| RegionNames.IntRoundTrip | src/pocketmine/level/format/io/region/RegionLevelProvider.php:290 | `(int)` reads back every integer that string interpolation writes, sign included |
| RegionNames.MatchRoundTrip | src/pocketmine/level/format/io/region/RegionLevelProvider.php:211 | the regex of getAllChunks matches every name pathToRegion writes, with the same coordinates |
| RegionNames.PathToRegionInjective | src/pocketmine/level/format/io/region/RegionLevelProvider.php:210-212 | distinct regions get distinct paths under the same root |
| RegionNames.BackupIsNoRegionPath | src/pocketmine/level/format/io/region/RegionLevelProvider.php:231-232 | the backup path differs from every region path and from the file it backs up |
| RegionNames.BackupPathInjective | src/pocketmine/level/format/io/region/RegionLevelProvider.php:231 | two backup paths are equal only for the same file and the same timestamp |
| RegionNames.MatchSkipsOtherFiles | src/pocketmine/level/format/io/region/RegionLevelProvider.php:285 | no name that does not start with `r.` matches, whatever the extension (a final newline does not help it) |
| RegionNames.MatchSkipsSiblingFormat | src/pocketmine/level/format/io/region/RegionLevelProvider.php:285 | the name pathToRegion gives any region under another extension is not matched by this format's pattern |
| RegionNames.MatchOriginName | src/pocketmine/level/format/io/region/RegionLevelProvider.php:285 | `r.0.0.mca` matches with region (0, 0) |
| RegionNames.MatchNegativeName | src/pocketmine/level/format/io/region/RegionLevelProvider.php:285 | `r.-1.0.mca` matches with region (-1, 0) |
| RegionFiles.PathOfInjective | src/pocketmine/level/format/io/region/RegionLevelProvider.php:231 | distinct region and backup file names denote distinct path strings |
| RegionFiles.BackupOf | src/pocketmine/level/format/io/region/RegionLevelProvider.php:231 | the backup of a region file is a different file, whose path is the region path followed by `.bak.<time>` |
| FilterMaps.FilterMapExactly | src/pocketmine/level/format/io/region/RegionLevelProvider.php:295-297 | a value is yielded exactly when some element gives it, so null chunks and non-matching names are skipped |
| FilterMaps.FilterMapAppend | src/pocketmine/level/format/io/region/RegionLevelProvider.php:289-301 | the values yielded for two walks in sequence are those of the first walk followed by those of the second |
| Enumeration.ColumnVisits | src/pocketmine/level/format/io/region/RegionLevelProvider.php:294 | the inner loop visits `(x, z0 + i)` at step i, for 32 steps |
| Enumeration.BlockVisitsMembers | src/pocketmine/level/format/io/region/RegionLevelProvider.php:293-294 | the two loops visit exactly the chunks of the 32-by-32 rectangle |
| Enumeration.BlockVisitsSorted | src/pocketmine/level/format/io/region/RegionLevelProvider.php:293-294 | each chunk is visited once, with x in the outer loop and z in the inner one |
| Enumeration.RegionVisitsExactly | src/pocketmine/level/format/io/region/RegionLevelProvider.php:290-294 | a region's walk visits exactly the chunks whose region index is that region, once each, in row-major order |
| Enumeration.AllVisitsExactly | src/pocketmine/level/format/io/region/RegionLevelProvider.php:289-294 | a coordinate is visited exactly when its region is among those the iterator yields |
| Enumeration.ListingVisitsExactly | src/pocketmine/level/format/io/region/RegionLevelProvider.php:280-294 | a coordinate is visited exactly when some directory entry matches the pattern with that coordinate's region |
| Enumeration.ListingExample | src/pocketmine/level/format/io/region/RegionLevelProvider.php:280-294 | the listing `r.0.0.mca`, `r.-1.0.mca`, `notaregion.txt` visits exactly x in `[-32, 31]`, z in `[0, 31]` |
| FormatProbe.LastDot | src/pocketmine/level/format/io/region/RegionLevelProvider.php:58 | `strrpos` finds the last dot, or reports that there is none |
| FormatProbe.RegionLookingFiles | src/pocketmine/level/format/io/region/RegionLevelProvider.php:57-59 | the filter keeps exactly the entries whose two characters after the last dot are `mc` |
| FormatProbe.IsValid | src/pocketmine/level/format/io/region/RegionLevelProvider.php:53-71 | the result is true exactly when `level.dat` and `region/` exist and every region-looking file has exactly this format's extension |
| FormatProbe.OneMismatchDisqualifies | src/pocketmine/level/format/io/region/RegionLevelProvider.php:62-66 | one region-looking file with another extension makes the world invalid, whatever the probes say |
| FormatProbe.IgnoresOtherFiles | src/pocketmine/level/format/io/region/RegionLevelProvider.php:57-59 | files that do not look like region files do not affect the result |
| FormatProbe.SiblingFormatExample | src/pocketmine/level/format/io/region/RegionLevelProvider.php:62-66 | a directory holding `r.0.0.mcr` is not a valid `mca` world |
| FormatProbe.NoDotNameExample | src/pocketmine/level/format/io/region/RegionLevelProvider.php:58 | a name without a dot is probed from offset 1, so `xmcz` disqualifies an `mca` world |
| RegionProvider.ReadAfterWrite | src/pocketmine/level/format/io/region/RegionLevelProvider.php:254-277 | after a write that changed one slot of one region, the chunk reads back as the decoding of its encoding and every other chunk reads as before |
| RegionProvider.SameViewSamePresent | src/pocketmine/level/format/io/region/RegionLevelProvider.php:295 | two states in which every region reads the same yield the same chunks along any walk |
| RegionProvider.LoadKeepsViews | src/pocketmine/level/format/io/region/RegionLevelProvider.php:218-241 | caching a loader that presents the region file's contents keeps every region's view, when the directory changes only at that file and its backup |
| RegionProvider.AfterLoad | src/pocketmine/level/format/io/region/RegionLevelProvider.php:218-241 | after loadRegion the region is cached with a loader presenting what it read as before (the cached loader's slots, or the stored ones); a newly cached loader serves the region's own file and is stamped `now`; every loader cached before stays cached and unchanged; the log only grows |
| RegionProvider.AfterLoadIdempotent | src/pocketmine/level/format/io/region/RegionLevelProvider.php:219 | loading a region that loadRegion already loaded changes nothing, whatever the time |
| RegionProvider.AfterLoadLoadsOnly | src/pocketmine/level/format/io/region/RegionLevelProvider.php:218-241 | one loadRegion of a region in a set changes cache, directory and log only as loading regions of that set at time `now` does: old loaders kept, new ones stamped `now` with their stored slots, only their files and `.bak.<now>` backups touched, only recovery lines logged |
| RegionProvider.LoadsOnlyTrans | src/pocketmine/level/format/io/region/RegionLevelProvider.php:289-301 | two rounds of such loads at the same time, the second from within the first's set, are one round from that set |
| RegionProvider.LoadAll | src/pocketmine/level/format/io/region/RegionLevelProvider.php:289-301 | loading the matched regions in turn only appends to the log |
| RegionProvider.LoadAllLoadsOnly | src/pocketmine/level/format/io/region/RegionLevelProvider.php:289-301 | loading the matched regions in turn changes cache, directory and log only as loading regions of the matched set does (`LoadsOnly`) |
| RegionProvider.LoadAllCaches | src/pocketmine/level/format/io/region/RegionLevelProvider.php:289-295 | after loading the matched regions in turn, every matched region is cached |
| RegionProvider.LoadAllLogsRecovery | src/pocketmine/level/format/io/region/RegionLevelProvider.php:225-233 | every matched region that was not cached and whose file was present but corrupted at the start has its corruption and its move to `.bak.<now>` logged after the old log |
| RegionProvider.RegionLevelProvider.PathToRegion | src/pocketmine/level/format/io/region/RegionLevelProvider.php:210-212 | the path lies under `<root>region/`, and its file name is matched by getAllChunks' pattern with the same coordinates |
| RegionProvider.RegionLevelProvider.LoaderServesPath | src/pocketmine/level/format/io/region/RegionLevelProvider.php:220-222 | the loader cached for a region serves the file at `pathToRegion` of that region |
| RegionProvider.RegionLevelProvider.GetRegion | src/pocketmine/level/format/io/region/RegionLevelProvider.php:198-200 | the cached loader if the region is cached, null otherwise; a cached loader serves that region's file |
| RegionProvider.RegionLevelProvider.LoadRegion | src/pocketmine/level/format/io/region/RegionLevelProvider.php:218-241 | the new cache, directory and log are `AfterLoad` of the old ones: insert-if-absent, so a cached region leaves cache, directory and log unchanged; otherwise the region maps to a loader for its own file stamped `now`, no other key changes, and a corrupted file is moved to `.bak.<now>` with two log lines and replaced by an empty region; every region reads the same after |
| RegionProvider.RegionLevelProvider.DoGarbageCollection | src/pocketmine/level/format/io/region/RegionLevelProvider.php:171-179 | keeps exactly the loaders with `lastUsed > now - 300` (so `now - 300` is evicted, `now - 299` kept), writes each evicted loader's slots to its file, changes no other file and not the log; every region reads the same after |
| RegionProvider.RegionLevelProvider.Close | src/pocketmine/level/format/io/region/RegionLevelProvider.php:243-248 | empties the cache, writes every loader's slots to its file, changes no other file and not the log; every region reads the same after |
| RegionProvider.RegionLevelProvider.ReadChunk | src/pocketmine/level/format/io/region/RegionLevelProvider.php:254-267 | null exactly when the loaded region's slot is empty, otherwise `deserializeChunk` of its bytes; equal to what the initial state holds there; cache, directory and log are `AfterLoad` of the old ones for the chunk's region; every region reads the same after |
| RegionProvider.RegionLevelProvider.WriteChunk | src/pocketmine/level/format/io/region/RegionLevelProvider.php:269-277 | the chunk's region holds `serializeChunk(chunk)` in slot `(x & 31, z & 31)`, the chunk reads back as `deserializeChunk(serializeChunk(chunk))`, every other chunk reads as before; the new state is `AfterLoad` of the old one for the chunk's region, with that one slot of the region's loader written (so with the region cached only that loader changes) |
| RegionProvider.RegionLevelProvider.ReadColumn | src/pocketmine/level/format/io/region/RegionLevelProvider.php:294-299 | returns the chunks present at `(chunkX, regionZ << 5)` to `(chunkX, (regionZ << 5) + 31)` in the initial state, in order; keeps every view; cache, directory and log are `AfterLoad` of the old ones for the one region holding them, as if it had been loaded once |
| RegionProvider.RegionLevelProvider.ReadRegionBlock | src/pocketmine/level/format/io/region/RegionLevelProvider.php:290-300 | returns the chunks present in the region's 32-by-32 block in the initial state, in visiting order; keeps every view; cache, directory and log are `AfterLoad` of the old ones for that region, as if it had been loaded once |
| RegionProvider.RegionLevelProvider.GetAllChunks | src/pocketmine/level/format/io/region/RegionLevelProvider.php:279-302 | returns the chunks present at the coordinates visited for the matched regions, in visiting order, as reading them in the initial state gives; keeps every view; the new cache, directory and log are `LoadAll` of the old ones: each matched region loaded in turn, in listing order, as loadRegion does |

### The provider methods in detail

**LoadRegion** leaves `AfterLoad` of the old state, which is insert-if-absent:
- A region already cached leaves the cache, the directory and the log unchanged.
- Otherwise the region maps to a loader for its own file, with `lastUsed = now`. Its slots are those of the readable file, or none.
- No other key changes.
- If the file is corrupted:
  - it is closed without writing;
  - it is moved to `<path>.bak.<now>`;
  - two log lines are written;
  - an empty region takes its place.
- If the file is readable or absent, only that file is created or kept.
- Every region reads the same after as before.

**DoGarbageCollection**:
- It keeps exactly the loaders with `lastUsed > now - 300`, so `now - 300` is evicted and `now - 299` kept.
- Each evicted loader's slots are written to its file.
- No other file changes, and the log is unchanged.
- Every region reads the same after as before.

**Close**:
- The cache is empty afterwards.
- Every loader's slots are written to its file.
- No other file changes.
- Every region reads the same after as before.

**ReadChunk**:
- It returns null exactly when the loaded region's slot is empty, and otherwise `deserializeChunk` of the slot's bytes.
- This is the chunk the initial state holds at those coordinates.
- The cache, the directory and the log change exactly as `loadRegion` of the chunk's region changes them.
- Every region reads the same after as before.

**WriteChunk**:
- The chunk's region holds `serializeChunk(chunk)` in slot `(x & 31, z & 31)`.
- The chunk now reads back as `deserializeChunk(serializeChunk(chunk))`.
- Every other chunk reads as before.
- Cache, directory and log are those `loadRegion` leaves, with that one slot of the region's loader written.
- With the region cached, only that loader changes.

**ReadColumn and ReadRegionBlock**:
- All the chunks they read lie in one region.
- After the first read that region is cached, and later reads change nothing (`AfterLoadIdempotent`).
- So the new state is exactly `AfterLoad` of the old one for that region.

**GetAllChunks** (`LoadAll`):
- The new state is `LoadAll` of the old one: `AfterLoad` of each matched region in turn, in listing order.
- Every matched region is cached afterwards (`LoadAllCaches`).
- Every matched region whose file was corrupted and not cached has both recovery lines logged (`LoadAllLogsRecovery`).

From `LoadAllLoadsOnly` (`LoadsOnly`):
- Every loader cached at the start stays cached and unchanged.
- Each new loader is for a region the iterator yields. It is stamped `now` and holds that region's stored slots.
- Files change only at the new regions' own files and at their `.bak.<now>` backups, when those regions' files were corrupted.
- The log only gains recovery lines for those corrupted files.

## Left out

- **generate**: the `levelData` accessors (including the floating-point rain and lightning levels) and `getPcWorldFormatVersion` are NBT and filesystem work outside this core.
- **RegionLoader**: its code is not part of this model. Its `open` is reduced to the three outcomes the provider relies on, and its `close(bool)` to writing its slots back or not. `lastUsed` is stamped with `now` when a loader is opened and never refreshed, because any refresh happens inside RegionLoader.
- **Level::chunkHash**: not part of this model. The cache is keyed by the coordinate pair it encodes.
- **BaseLevelProvider::loadChunk**: not part of this model. getAllChunks calls it, and here it is modelled as `readChunk`, which it delegates to.
- **Integer width**: PHP's 64-bit wrap-around of `<< 5` and the saturation of `(int)` on digit strings longer than 64 bits are not modelled. Coordinates are unbounded integers.
- **Log messages**: the exception message and the log text are reduced to the entries `CorruptionDetected` and `BackedUp`, with the files they name.
- **Filesystem failures**: a failing `rename`, a failing second `open`, and I/O errors in general are not modelled. Both operations always succeed.
- **Directory listing**: the order of `FilesystemIterator` is unspecified, so the listing is a parameter of `GetAllChunks` given as file names. The pattern's `\/` before `r` is modelled by requiring the name to start with `r.`. The listing is not derived from `disk`, which only holds the files the provider itself names.
- **isValid probes**: `file_exists`, `is_dir` and `scandir` are the parameters of `IsValid`.
- **The generator**: `yield` is modelled as collecting the chunks into a sequence. Interleaving with the generator's consumer is not modelled. One `now` stands for every `time()` call of a whole pass, so all backups made during one enumeration carry the same timestamp; the source reads `time()` again at each recovery (RegionLevelProvider.php:231), so in a lazily consumed enumeration they can differ.
- **Extension**: `getRegionFileExtension` belongs to the concrete formats, which are not part of this model. Their extension is assumed to be a non-empty run of lower-case letters (`ValidExt`). The constructor requires it. Such an extension stands in the pattern literally, with no regex metacharacter in it, and no path ends in a newline. For other extensions the matcher, the injectivity of paths and `PathOfInjective` are not claimed.
- **File names as bytes**: PHP's `strrpos` and `substr` count bytes. File names are modelled as strings with one character per byte of the name's encoding. So the offset `strrpos(...) + 1` in `isValid` (RegionLevelProvider.php:58), which is 1 for a name without a dot, is a byte offset only when the name is given that way. A name given with one character for a multi-byte letter, such as `émcz`, is probed at a different position than PHP's.
- **Codec failures**: `deserializeChunk` is a total function here. An exception it throws on malformed bytes, which `readChunk` and `getAllChunks` pass on to their callers (RegionLevelProvider.php:263, 295), is not modelled.
- **The error log**: `MainLogger` is modelled as the `log` field. Nothing else about logging is modelled.
