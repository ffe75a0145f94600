/**
 * Region file names.  pathToRegion renders a region's coordinates in decimal
 * into `region/r.<rx>.<rz>.<ext>`; getAllChunks recognises region files with
 * the pattern `/r\.(-?\d+)\.(-?\d+)\.<ext>$/` and reads the coordinates back
 * with `(int)`; corruption recovery moves a file aside to `<path>.bak.<time>`.
 */
module RegionNames {
  import opened Wrappers

  predicate IsDigit(c: char)
  {
    '0' <= c <= '9'
  }

  predicate AllDigits(s: string)
  {
    forall i :: 0 <= i < |s| ==> IsDigit(s[i])
  }

  function DigitChar(d: int): (c: char)
    requires 0 <= d < 10
    ensures IsDigit(c)
  {
    ('0' as int + d) as char
  }

  function DigitValue(c: char): (d: int)
    requires IsDigit(c)
    ensures 0 <= d < 10
  {
    c as int - '0' as int
  }

  /** The decimal digits of n, without leading zeros. */
  function NatToString(n: nat): (s: string)
    ensures |s| > 0 && AllDigits(s)
    decreases n
  {
    if n < 10 then [DigitChar(n)] else NatToString(n / 10) + [DigitChar(n % 10)]
  }

  /** An integer as PHP interpolates it into a string: a minus sign, then the digits. */
  function IntToString(i: int): (s: string)
  {
    if i < 0 then "-" + NatToString(-i) else NatToString(i)
  }

  /** The value of a run of decimal digits; leading zeros are allowed. */
  function DigitsValue(s: string): nat
    requires AllDigits(s)
  {
    if s == [] then 0 else DigitsValue(s[..|s| - 1]) * 10 + DigitValue(s[|s| - 1])
  }

  /** The strings the sub-pattern `-?\d+` matches. */
  predicate IsSignedDigits(s: string)
  {
    if |s| > 0 && s[0] == '-' then |s| > 1 && AllDigits(s[1..]) else |s| > 0 && AllDigits(s)
  }

  /** PHP's `(int)` applied to a string matched by `-?\d+`. */
  function ParseSigned(s: string): int
    requires IsSignedDigits(s)
  {
    if s[0] == '-' then -(DigitsValue(s[1..]) as int) else DigitsValue(s)
  }

  lemma {:induction false} NatRoundTrip(n: nat)
    ensures DigitsValue(NatToString(n)) == n
    decreases n
  {
    if n >= 10 {
      var s := NatToString(n);
      NatRoundTrip(n / 10);
      assert s[..|s| - 1] == NatToString(n / 10);
    }
  }

  /** `(int)` reads back every integer that string interpolation writes. */
  lemma IntRoundTrip(i: int)
    ensures IsSignedDigits(IntToString(i))
    ensures ParseSigned(IntToString(i)) == i
  {
    var s := IntToString(i);
    if i < 0 {
      assert s[1..] == NatToString(-i);
      NatRoundTrip(-i);
    } else {
      NatRoundTrip(i);
    }
  }

  /** The length of the longest prefix of s made of digits. */
  function DigitRun(s: string): (n: nat)
    ensures n <= |s|
    ensures AllDigits(s[..n])
    ensures n < |s| ==> !IsDigit(s[n])
  {
    if s == [] || !IsDigit(s[0]) then 0
    else
      var n := 1 + DigitRun(s[1..]);
      assert s[..n] == [s[0]] + s[1..][..n - 1];
      n
  }

  /**
   * The length of the prefix of s matched by `-?\d+`, or 0 when none is.  The
   * match is unique: `\d+` is greedy and the pattern needs a `.` right after
   * it, which no shorter run of digits is followed by.
   */
  function SignedRun(s: string): (n: nat)
    ensures n <= |s|
    ensures n > 0 ==> IsSignedDigits(s[..n])
  {
    if |s| > 0 && s[0] == '-' then
      var k := DigitRun(s[1..]);
      if k == 0 then 0
      else
        assert s[..k + 1][1..] == s[1..][..k];
        k + 1
    else DigitRun(s)
  }

  /** The extensions of the region formats: lower-case letters, so they can stand in a pattern as they are. */
  predicate ValidExt(ext: string)
  {
    |ext| > 0 && forall i :: 0 <= i < |ext| ==> 'a' <= ext[i] <= 'z'
  }

  /** `r.<rx>.<rz>.<ext>` */
  function RegionFileName(rx: int, rz: int, ext: string): string
  {
    "r." + (IntToString(rx) + "." + (IntToString(rz) + "." + ext))
  }

  /** pathToRegion: `<root>region/r.<rx>.<rz>.<ext>` */
  function PathToRegion(root: string, rx: int, rz: int, ext: string): string
  {
    root + "region/" + RegionFileName(rx, rz, ext)
  }

  /** Where a corrupted region file is moved: `<path>.bak.<time>`. */
  function BackupPath(path: string, time: int): string
  {
    path + ".bak." + IntToString(time)
  }

  /** The file name without one final newline, before which PCRE's `$` also matches. */
  function StripFinalNewline(name: string): (s: string)
  {
    if |name| > 0 && name[|name| - 1] == '\n' then name[..|name| - 1] else name
  }

  /**
   * The pattern `/\/r\.(-?\d+)\.(-?\d+)\.<ext>$/` applied to a file's path,
   * with the coordinates converted by `(int)`.  The `\/` before `r` and the
   * anchor `$` confine the match to the file's own name, which therefore must
   * start with `r.`.
   */
  function MatchRegionFileName(name: string, ext: string): (r: Option<(int, int)>)
  {
    var s := StripFinalNewline(name);
    if |s| < 2 || s[..2] != "r." then None else MatchCoordinates(s[2..], ext)
  }

  /** `(-?\d+)\.(-?\d+)\.<ext>$` */
  function MatchCoordinates(t: string, ext: string): (r: Option<(int, int)>)
  {
    var a := SignedRun(t);
    if a == 0 || a >= |t| || t[a] != '.' then None
    else
      match MatchLastCoordinate(t[a + 1..], ext)
      case None => None
      case Some(z) => Some((ParseSigned(t[..a]), z))
  }

  /** `(-?\d+)\.<ext>$` */
  function MatchLastCoordinate(u: string, ext: string): (r: Option<int>)
  {
    var b := SignedRun(u);
    if b == 0 || b >= |u| || u[b] != '.' || u[b + 1..] != ext then None
    else Some(ParseSigned(u[..b]))
  }

  lemma {:induction false} DigitRunStopsAtDot(d: string, rest: string)
    requires AllDigits(d)
    ensures DigitRun(d + "." + rest) == |d|
    decreases |d|
  {
    if d != [] {
      assert (d + "." + rest)[1..] == d[1..] + "." + rest;
      DigitRunStopsAtDot(d[1..], rest);
    }
  }

  lemma SignedRunOfInt(i: int, rest: string)
    ensures SignedRun(IntToString(i) + "." + rest) == |IntToString(i)|
  {
    var s := IntToString(i);
    if i < 0 {
      var d := NatToString(-i);
      assert (s + "." + rest)[1..] == d + "." + rest;
      DigitRunStopsAtDot(d, rest);
    } else {
      DigitRunStopsAtDot(s, rest);
    }
  }

  lemma MatchLastRoundTrip(rz: int, ext: string)
    ensures MatchLastCoordinate(IntToString(rz) + "." + ext, ext) == Some(rz)
  {
    var z := IntToString(rz);
    var u := z + "." + ext;
    SignedRunOfInt(rz, ext);
    assert u[..|z|] == z;
    assert u[|z| + 1..] == ext;
    IntRoundTrip(rz);
  }

  lemma MatchCoordinatesRoundTrip(rx: int, rz: int, ext: string)
    ensures MatchCoordinates(IntToString(rx) + "." + (IntToString(rz) + "." + ext), ext) == Some((rx, rz))
  {
    var x, rest := IntToString(rx), IntToString(rz) + "." + ext;
    var t := x + "." + rest;
    SignedRunOfInt(rx, rest);
    assert t[..|x|] == x;
    assert t[|x| + 1..] == rest;
    MatchLastRoundTrip(rz, ext);
    IntRoundTrip(rx);
  }

  /** Every name pathToRegion writes is recognised by getAllChunks, with the same coordinates. */
  lemma MatchRoundTrip(rx: int, rz: int, ext: string)
    requires ValidExt(ext)
    ensures MatchRegionFileName(RegionFileName(rx, rz, ext), ext) == Some((rx, rz))
  {
    var name := RegionFileName(rx, rz, ext);
    var t := IntToString(rx) + "." + (IntToString(rz) + "." + ext);
    assert name == "r." + t;
    assert name[|name| - 1] == ext[|ext| - 1];
    assert StripFinalNewline(name) == name;
    assert name[..2] == "r." && name[2..] == t;
    MatchCoordinatesRoundTrip(rx, rz, ext);
  }

  /** Distinct regions get distinct file names. */
  lemma RegionFileNameInjective(rx: int, rz: int, sx: int, sz: int, ext: string)
    requires ValidExt(ext)
    requires RegionFileName(rx, rz, ext) == RegionFileName(sx, sz, ext)
    ensures rx == sx && rz == sz
  {
    MatchRoundTrip(rx, rz, ext);
    MatchRoundTrip(sx, sz, ext);
  }

  /** Distinct regions get distinct paths under the same root. */
  lemma PathToRegionInjective(root: string, rx: int, rz: int, sx: int, sz: int, ext: string)
    requires ValidExt(ext)
    requires PathToRegion(root, rx, rz, ext) == PathToRegion(root, sx, sz, ext)
    ensures rx == sx && rz == sz
  {
    var prefix := root + "region/";
    var p := PathToRegion(root, rx, rz, ext);
    assert p == prefix + RegionFileName(rx, rz, ext);
    assert p[|prefix|..] == RegionFileName(rx, rz, ext);
    assert PathToRegion(root, sx, sz, ext)[|prefix|..] == RegionFileName(sx, sz, ext);
    RegionFileNameInjective(rx, rz, sx, sz, ext);
  }

  /**
   * A backup path ends in a digit of the timestamp and a region path in a
   * letter of the extension, so moving a corrupted file aside never lands on
   * any region's file.
   */
  lemma BackupIsNoRegionPath(path: string, time: int, root: string, rx: int, rz: int, ext: string)
    requires ValidExt(ext)
    ensures BackupPath(path, time) != PathToRegion(root, rx, rz, ext)
    ensures BackupPath(path, time) != path
  {
    var b, p, t := BackupPath(path, time), PathToRegion(root, rx, rz, ext), IntToString(time);
    assert b[|b| - 1] == t[|t| - 1];
    assert IsDigit(t[|t| - 1]) by {
      if time < 0 {
        assert t[1..] == NatToString(-time);
        assert t[|t| - 1] == t[1..][|t| - 2];
      }
    }
    assert p[|p| - 1] == ext[|ext| - 1];
    assert |b| > |path|;
  }

  /** The decimal form of an integer has no dot. */
  lemma IntToStringHasNoDot(i: int)
    ensures forall k :: 0 <= k < |IntToString(i)| ==> IntToString(i)[k] != '.'
  {
    var s := IntToString(i);
    if i < 0 {
      var d := NatToString(-i);
      assert s == "-" + d;
      forall k | 1 <= k < |s|
        ensures s[k] != '.'
      {
        assert s[k] == d[k - 1];
      }
    }
  }

  /** The length of the longest suffix of s without a dot. */
  function DotFreeTail(s: string): (n: nat)
    ensures n <= |s|
  {
    if s == [] || s[|s| - 1] == '.' then 0 else 1 + DotFreeTail(s[..|s| - 1])
  }

  lemma {:induction false} DotFreeTailOf(x: string, d: string)
    requires forall k :: 0 <= k < |d| ==> d[k] != '.'
    ensures DotFreeTail(x + "." + d) == |d|
    decreases |d|
  {
    var s := x + "." + d;
    if d != [] {
      var front := d[..|d| - 1];
      assert s[..|s| - 1] == x + "." + front;
      assert s[|s| - 1] == d[|d| - 1];
      DotFreeTailOf(x, front);
    }
  }

  /**
   * Distinct files or distinct timestamps give distinct backup paths: the
   * timestamp is the dot-free tail of the path and the file what precedes
   * `.bak.`.
   */
  lemma BackupPathInjective(p1: string, t1: int, p2: string, t2: int)
    requires BackupPath(p1, t1) == BackupPath(p2, t2)
    ensures p1 == p2 && t1 == t2
  {
    var a := BackupPath(p1, t1);
    var d1, d2 := IntToString(t1), IntToString(t2);
    IntToStringHasNoDot(t1);
    IntToStringHasNoDot(t2);
    assert a == (p1 + ".bak") + "." + d1;
    assert a == (p2 + ".bak") + "." + d2;
    DotFreeTailOf(p1 + ".bak", d1);
    DotFreeTailOf(p2 + ".bak", d2);
    assert d1 == a[|a| - |d1|..] == d2;
    assert p1 == a[..|p1|] == p2;
    IntRoundTrip(t1);
    IntRoundTrip(t2);
  }

  /** Files whose names do not start with `r.` are skipped, whatever the extension. */
  lemma MatchSkipsOtherFiles(name: string, ext: string)
    requires |name| < 2 || name[..2] != "r."
    ensures MatchRegionFileName(name, ext) == None
  {
    var s := StripFinalNewline(name);
    if 2 <= |s| {
      assert s[..2] == name[..2];
    }
  }

  /**
   * A region file of a sibling format, named by pathToRegion with another
   * extension, is skipped: the coordinates are read up to the last dot and
   * what follows differs from the extension looked for.
   */
  lemma MatchSkipsSiblingFormat(rx: int, rz: int, other: string, ext: string)
    requires ValidExt(other) && other != ext
    ensures MatchRegionFileName(RegionFileName(rx, rz, other), ext) == None
  {
    var name := RegionFileName(rx, rz, other);
    var x, z := IntToString(rx), IntToString(rz);
    var rest := z + "." + other;
    var t := x + "." + rest;
    assert name == "r." + t;
    assert name[|name| - 1] == other[|other| - 1];
    assert StripFinalNewline(name) == name;
    assert name[..2] == "r." && name[2..] == t;
    SignedRunOfInt(rx, rest);
    assert t[|x| + 1..] == rest;
    SignedRunOfInt(rz, other);
    assert rest[|z| + 1..] == other;
  }

  /** The name `r.0.0.mca` gives region (0, 0). */
  lemma MatchOriginName(name: string)
    requires name == "r.0.0.mca"
    ensures MatchRegionFileName(name, "mca") == Some((0, 0))
  {
    assert IntToString(0) == "0";
    assert RegionFileName(0, 0, "mca") == name;
    MatchRoundTrip(0, 0, "mca");
  }

  /** The name `r.-1.0.mca` gives region (-1, 0). */
  lemma MatchNegativeName(name: string)
    requires name == "r.-1.0.mca"
    ensures MatchRegionFileName(name, "mca") == Some((-1, 0))
  {
    assert IntToString(0) == "0";
    assert IntToString(-1) == "-1";
    assert RegionFileName(-1, 0, "mca") == name;
    MatchRoundTrip(-1, 0, "mca");
  }
}
