/**
 * The order in which getAllChunks visits chunk coordinates: for every region
 * file of the listing whose name matches, the region's 32x32 block from
 * `(rx << 5, rz << 5)`, x in the outer loop and z in the inner one.
 */
module Enumeration {
  import opened Wrappers
  import opened Coords
  import opened RegionNames
  import opened FilterMaps

  type Coord = (int, int)

  /** Row-major order: by x first, then by z. */
  predicate Before(a: Coord, b: Coord)
  {
    a.0 < b.0 || (a.0 == b.0 && a.1 < b.1)
  }

  /** The inner loop: `(x, z0), (x, z0 + 1), ..., (x, z0 + n - 1)`. */
  function ColumnVisits(x: int, z0: int, n: nat): (s: seq<Coord>)
    ensures |s| == n
    ensures forall i :: 0 <= i < n ==> s[i] == (x, z0 + i)
  {
    if n == 0 then [] else ColumnVisits(x, z0, n - 1) + [(x, z0 + n - 1)]
  }

  /** The outer loop: n columns of 32 chunks from `(x0, z0)`. */
  function BlockVisits(x0: int, z0: int, n: nat): seq<Coord>
  {
    if n == 0 then [] else BlockVisits(x0, z0, n - 1) + ColumnVisits(x0 + n - 1, z0, 32)
  }

  lemma ColumnVisitsSnoc(x: int, z0: int, n: nat)
    ensures ColumnVisits(x, z0, n + 1) == ColumnVisits(x, z0, n) + [(x, z0 + n)]
  {
  }

  lemma BlockVisitsSnoc(x0: int, z0: int, n: nat)
    ensures BlockVisits(x0, z0, n + 1) == BlockVisits(x0, z0, n) + ColumnVisits(x0 + n, z0, 32)
  {
  }

  /** n columns visit the chunks of the rectangle `[x0, x0 + n) x [z0, z0 + 32)`. */
  lemma {:induction false} BlockVisitsMembers(x0: int, z0: int, n: nat)
    ensures forall c :: c in BlockVisits(x0, z0, n) <==> x0 <= c.0 < x0 + n && z0 <= c.1 < z0 + 32
  {
    if n > 0 {
      BlockVisitsMembers(x0, z0, n - 1);
      var col := ColumnVisits(x0 + n - 1, z0, 32);
      forall c: Coord | c.0 == x0 + n - 1 && z0 <= c.1 < z0 + 32 ensures c in col {
        assert col[c.1 - z0] == c;
      }
    }
  }

  /** ... each once, in row-major order. */
  lemma {:induction false} BlockVisitsSorted(x0: int, z0: int, n: nat)
    ensures forall i, j :: 0 <= i < j < |BlockVisits(x0, z0, n)| ==> Before(BlockVisits(x0, z0, n)[i], BlockVisits(x0, z0, n)[j])
  {
    if n > 0 {
      var front, col := BlockVisits(x0, z0, n - 1), ColumnVisits(x0 + n - 1, z0, 32);
      BlockVisitsSorted(x0, z0, n - 1);
      BlockVisitsMembers(x0, z0, n - 1);
      assert forall i :: 0 <= i < |front| ==> front[i] in front;
    }
  }

  /** The chunks visited for region `(rx, rz)`. */
  function RegionVisits(rx: int, rz: int): seq<Coord>
  {
    BlockVisits(ShiftLeft(rx, 5), ShiftLeft(rz, 5), 32)
  }

  /**
   * A region's walk visits exactly the chunks whose region index is that
   * region, each once, in row-major order.
   */
  lemma RegionVisitsExactly(rx: int, rz: int)
    ensures forall c :: c in RegionVisits(rx, rz) <==> RegionIndex(c.0) == rx && RegionIndex(c.1) == rz
    ensures forall i, j :: 0 <= i < j < |RegionVisits(rx, rz)| ==> Before(RegionVisits(rx, rz)[i], RegionVisits(rx, rz)[j])
  {
    BlockVisitsMembers(ShiftLeft(rx, 5), ShiftLeft(rz, 5), 32);
    BlockVisitsSorted(ShiftLeft(rx, 5), ShiftLeft(rz, 5), 32);
    forall c: Coord
      ensures c in RegionVisits(rx, rz) <==> RegionIndex(c.0) == rx && RegionIndex(c.1) == rz
    {
      RegionBlock(rx, c.0);
      RegionBlock(rz, c.1);
    }
  }

  /** The pattern of getAllChunks as a function of the entry's name. */
  function RegionPattern(ext: string): string -> Option<(int, int)>
  {
    (name: string) => MatchRegionFileName(name, ext)
  }

  /**
   * The RegexIterator of getAllChunks in GET_MATCH mode: the coordinates of
   * every entry whose name matches the region pattern, in listing order; the
   * other entries are skipped.
   */
  function RegexMatches(files: seq<string>, ext: string): seq<(int, int)>
  {
    FilterMap(RegionPattern(ext), files)
  }

  /** The chunks visited for the regions the iterator yields, region after region. */
  function AllVisits(regions: seq<(int, int)>): seq<Coord>
  {
    if regions == [] then []
    else AllVisits(regions[..|regions| - 1]) + RegionVisits(regions[|regions| - 1].0, regions[|regions| - 1].1)
  }

  lemma AllVisitsStep(regions: seq<(int, int)>, i: nat)
    requires i < |regions|
    ensures AllVisits(regions[..i + 1]) == AllVisits(regions[..i]) + RegionVisits(regions[i].0, regions[i].1)
  {
    assert regions[..i + 1][..i] == regions[..i];
  }

  /** A coordinate is visited exactly when its region is among those yielded. */
  lemma {:induction false} AllVisitsExactly(regions: seq<(int, int)>, c: Coord)
    ensures c in AllVisits(regions) <==> (RegionIndex(c.0), RegionIndex(c.1)) in regions
  {
    if regions != [] {
      var front, last := regions[..|regions| - 1], regions[|regions| - 1];
      AllVisitsExactly(front, c);
      RegionVisitsExactly(last.0, last.1);
      assert regions == front + [last];
    }
  }

  /**
   * getAllChunks visits a coordinate exactly when some entry of the listing
   * matches the pattern with that coordinate's region.
   */
  lemma ListingVisitsExactly(files: seq<string>, ext: string, c: Coord)
    ensures c in AllVisits(RegexMatches(files, ext)) <==>
              exists i :: 0 <= i < |files| && MatchRegionFileName(files[i], ext) == Some((RegionIndex(c.0), RegionIndex(c.1)))
  {
    AllVisitsExactly(RegexMatches(files, ext), c);
    FilterMapExactly(RegionPattern(ext), files, (RegionIndex(c.0), RegionIndex(c.1)));
  }

  /**
   * The listing `r.0.0.mca`, `r.-1.0.mca`, `notaregion.txt` visits the chunks
   * of regions (0, 0) and (-1, 0), x from -32 to 31, and nothing for the
   * third file.
   */
  lemma ListingExample(files: seq<string>, c: Coord)
    requires files == ["r.0.0.mca", "r.-1.0.mca", "notaregion.txt"]
    ensures c in AllVisits(RegexMatches(files, "mca")) <==> -32 <= c.0 < 32 && 0 <= c.1 < 32
  {
    MatchOriginName(files[0]);
    MatchNegativeName(files[1]);
    assert MatchRegionFileName(files[2], "mca") == None by {
      var other := "notaregion.txt";
      assert other[..2][0] == 'n';
      MatchSkipsOtherFiles(other, "mca");
    }
    ListingVisitsExactly(files, "mca", c);
    RegionBlock(0, c.0);
    RegionBlock(-1, c.0);
    RegionBlock(0, c.1);
    Pow2Five();
    var target := Some((RegionIndex(c.0), RegionIndex(c.1)));
    if c in AllVisits(RegexMatches(files, "mca")) {
      var i :| 0 <= i < |files| && MatchRegionFileName(files[i], "mca") == target;
      assert i == 0 || i == 1;
    }
    if -32 <= c.0 < 32 && 0 <= c.1 < 32 {
      if c.0 < 0 {
        assert MatchRegionFileName(files[1], "mca") == target;
      } else {
        assert MatchRegionFileName(files[0], "mca") == target;
      }
    }
  }
}
