/**
 * isValid: a directory holds a world of this region format when it has a
 * `level.dat`, a `region/` directory, and every file of `region/` that looks
 * like a region file (its text after the last `.` starts with `mc`) carries
 * exactly this format's extension.  The filesystem probes and the directory
 * listing are parameters.
 */
module FormatProbe {
  import opened Wrappers

  /** `strrpos($s, ".")`: the position of the last dot, or false. */
  function LastDot(s: string): (r: Option<nat>)
    ensures r.Some? ==> r.value < |s| && s[r.value] == '.'
    ensures r.Some? ==> forall j :: r.value < j < |s| ==> s[j] != '.'
    ensures r.None? ==> forall j :: 0 <= j < |s| ==> s[j] != '.'
  {
    if s == [] then None
    else if s[|s| - 1] == '.' then Some(|s| - 1)
    else LastDot(s[..|s| - 1])
  }

  /** `strrpos($s, ".") + 1`; with no dot PHP computes `false + 1`, which is 1. */
  function AfterLastDot(s: string): nat
  {
    match LastDot(s)
    case None => 1
    case Some(i) => i + 1
  }

  /** `substr($s, $start, $length)` for a non-negative start; past the end it gives no text. */
  function Substr(s: string, start: nat, length: nat): string
  {
    if start >= |s| then ""
    else if start + length >= |s| then s[start..]
    else s[start..start + length]
  }

  /** `substr($s, $start)` for a non-negative start. */
  function SubstrToEnd(s: string, start: nat): string
  {
    if start >= |s| then "" else s[start..]
  }

  /** The filter of isValid: the two characters after the last dot are `mc`. */
  predicate LooksLikeRegionFile(f: string)
  {
    Substr(f, AfterLastDot(f), 2) == "mc"
  }

  /** The text after the last dot, which isValid compares with the extension. */
  function ExtensionOf(f: string): string
  {
    SubstrToEnd(f, AfterLastDot(f))
  }

  /** `array_filter` of the listing with LooksLikeRegionFile, keeping the order. */
  function RegionLookingFiles(files: seq<string>): (r: seq<string>)
    ensures |r| <= |files|
    ensures forall f :: f in r <==> f in files && LooksLikeRegionFile(f)
  {
    if files == [] then []
    else
      var rest := RegionLookingFiles(files[..|files| - 1]);
      var last := files[|files| - 1];
      assert files == files[..|files| - 1] + [last];
      if LooksLikeRegionFile(last) then rest + [last] else rest
  }

  /** The condition isValid decides. */
  ghost predicate IsRegionWorld(hasLevelDat: bool, hasRegionDir: bool, listing: seq<string>, ext: string)
  {
    && hasLevelDat
    && hasRegionDir
    && forall f :: f in listing && LooksLikeRegionFile(f) ==> ExtensionOf(f) == ext
  }

  /**
   * isValid: `hasLevelDat` and `hasRegionDir` are the two filesystem probes,
   * `listing` is what `scandir` returns for `region/`.
   */
  method IsValid(hasLevelDat: bool, hasRegionDir: bool, listing: seq<string>, ext: string)
    returns (isValid: bool)
    ensures isValid == IsRegionWorld(hasLevelDat, hasRegionDir, listing, ext)
  {
    isValid := hasLevelDat && hasRegionDir;
    if isValid {
      var files := RegionLookingFiles(listing);
      var i := 0;
      while i < |files|
        invariant 0 <= i <= |files|
        invariant forall j :: 0 <= j < i ==> ExtensionOf(files[j]) == ext
      {
        if ExtensionOf(files[i]) != ext {
          isValid := false;
          break;
        }
        i := i + 1;
      }
    }
  }

  /** One region-looking file with another extension disqualifies the whole directory. */
  lemma OneMismatchDisqualifies(listing: seq<string>, ext: string, i: nat)
    requires i < |listing|
    requires LooksLikeRegionFile(listing[i]) && ExtensionOf(listing[i]) != ext
    ensures forall dat, dir :: !IsRegionWorld(dat, dir, listing, ext)
  {
  }

  /** Files whose extension does not start with `mc`, such as `level.dat` or a backup, are ignored. */
  lemma IgnoresOtherFiles(listing: seq<string>, f: string, ext: string)
    requires !LooksLikeRegionFile(f)
    ensures IsRegionWorld(true, true, listing + [f], ext) == IsRegionWorld(true, true, listing, ext)
  {
  }

  /** A sibling format's region file makes the directory invalid for this format. */
  lemma SiblingFormatExample()
    ensures !IsRegionWorld(true, true, ["r.0.0.mca", "r.0.0.mcr"], "mca")
  {
    var listing := ["r.0.0.mca", "r.0.0.mcr"];
    var f := listing[1];
    calc {
      LastDot(f);
      LastDot(f[..8]);
      { assert f[..8][..7] == f[..7]; }
      LastDot(f[..7]);
      { assert f[..7][..6] == f[..6]; }
      LastDot(f[..6]);
      Some(5);
    }
    assert f[6..8] == "mc" && f[6..] == "mcr";
    OneMismatchDisqualifies(listing, "mca", 1);
  }

  /**
   * A name without any dot is probed at offset 1 (the `false + 1` above): a
   * file named `xmcz` counts as a region file whose extension is `mcz`.
   */
  lemma NoDotNameExample()
    ensures !IsRegionWorld(true, true, ["r.0.0.mca", "xmcz"], "mca")
  {
    var listing := ["r.0.0.mca", "xmcz"];
    var f := listing[1];
    calc {
      LastDot(f);
      LastDot(f[..3]);
      { assert f[..3][..2] == f[..2]; }
      LastDot(f[..2]);
      { assert f[..2][..1] == f[..1]; }
      LastDot(f[..1]);
      { assert f[..1][..0] == []; }
      LastDot([]);
      None;
    }
    assert f[1..3] == "mc" && f[1..] == "mcz";
    OneMismatchDisqualifies(listing, "mca", 1);
  }
}
