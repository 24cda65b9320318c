/** The `BhavCopy` object: its destination directory, the directories it creates on the
    file system, and the synchronous part of `download` up to the hand-off of each URL. */
module Fetcher {
  import opened Wrappers
  import opened JsText
  import opened Codes
  import opened Validator
  import opened Targets

  /** The message `download` resolves with once every target has been handed off. */
  const Acknowledgement := "Wait! Files are downloading..."

  /** The `dir` option after the constructor's test: kept when truthy and not the text
      "undefined", else the empty string. */
  function CustomDir(dir: Option<string>): (custom: string)
    ensures custom == "" <==> dir.None? || dir.value == "" || dir.value == "undefined"
    ensures custom != "" ==> dir == Some(custom)
  {
    if dir.Some? && dir.value != "" && dir.value != "undefined" then dir.value else ""
  }

  /** Where the archives of a request go: the custom directory when one is set, else
      `NSE/<year>/<month>` with the year as the caller wrote it. */
  function BaseDirFor(customDir: string, c: Criteria): (dir: string)
    ensures customDir != "" ==> dir == customDir
    ensures customDir == "" ==> dir == "NSE/" + c.year + "/" + c.month
  {
    if customDir != "" then customDir else "NSE/" + c.year + "/" + c.month
  }

  // ---------------------------------------------------------------------------
  // The directories `__createDir` creates

  /** The paths created for the first `n` segments: the join of the segments up to each
      non-empty one. */
  function PrefixesUpTo(parts: seq<string>, n: nat): set<string>
    requires n <= |parts|
  {
    if n == 0 then {}
    else if parts[n - 1] != "" then PrefixesUpTo(parts, n - 1) + {Join(parts[..n])}
    else PrefixesUpTo(parts, n - 1)
  }

  /** Every path `__createDir(dir)` ensures exists. */
  function DirPrefixes(dir: string): set<string>
  {
    var parts := Split(dir);
    PrefixesUpTo(parts, |parts|)
  }

  /** `p` is a leading part of `dir` that ends where a segment ends: at a slash of `dir`
      or at its end. */
  predicate EndsAtSegment(dir: string, p: string)
  {
    |p| <= |dir| && p == dir[..|p|] && (|p| == |dir| || dir[|p|] == '/')
  }

  lemma {:induction false} PrefixesUpToMember(parts: seq<string>, n: nat, p: string)
    requires n <= |parts|
    ensures p in PrefixesUpTo(parts, n) <==>
            exists k :: 0 <= k < n && parts[k] != "" && p == Join(parts[..k + 1])
  {
    if n > 0 {
      PrefixesUpToMember(parts, n - 1, p);
    }
  }

  /** The text of a non-empty part of a split does not end in a slash. */
  lemma LastCharOfJoin(parts: seq<string>)
    requires |parts| >= 1 && parts[|parts| - 1] != ""
    requires '/' !in parts[|parts| - 1]
    ensures var j := Join(parts); j != "" && j[|j| - 1] != '/'
  {
    var last := parts[|parts| - 1];
    if |parts| > 1 {
      var j := Join(parts);
      assert j == Join(parts[..|parts| - 1]) + "/" + last;
      assert j[|j| - 1] == last[|last| - 1];
    }
  }

  /** A text that does not end in a slash has a non-empty last segment. */
  lemma {:induction false} LastSegmentNonEmpty(s: string)
    requires s != "" && s[|s| - 1] != '/'
    ensures LastSegment(s) != ""
    decreases |s|
  {
    var rest := Split(s[1..]);
    if |s| == 1 {
      assert s[1..] == [];
    } else {
      LastSegmentNonEmpty(s[1..]);
    }
  }

  /** A member of DirPrefixes is a leading part of `dir` that ends at a segment end, and is
      neither empty nor ends in a slash. */
  lemma DirPrefixIsLeadingPart(dir: string, p: string)
    requires p in DirPrefixes(dir)
    ensures p != "" && p[|p| - 1] != '/' && EndsAtSegment(dir, p)
  {
    var parts := Split(dir);
    PrefixesUpToMember(parts, |parts|, p);
    var k :| 0 <= k < |parts| && parts[k] != "" && p == Join(parts[..k + 1]);
    LastCharOfJoin(parts[..k + 1]);
    JoinSplit(dir);
    JoinedPrefixEndsAtSegment(parts, k);
  }

  /** Joining the first `k + 1` pieces gives a leading part of the whole join that ends
      at a segment end. */
  lemma JoinedPrefixEndsAtSegment(parts: seq<string>, k: nat)
    requires k < |parts|
    ensures EndsAtSegment(Join(parts), Join(parts[..k + 1]))
  {
    if k + 1 < |parts| {
      JoinPrefix(parts, k);
      EndsAtSlash(Join(parts[..k + 1]), Join(parts[k + 1..]));
    } else {
      assert parts[..k + 1] == parts;
    }
  }

  lemma EndsAtSlash(p: string, q: string)
    ensures EndsAtSegment(p + "/" + q, p)
  {
    var d := p + "/" + q;
    assert d[..|p|] == p;
  }

  /** Every leading part of `dir` that ends at a segment end and is neither empty nor ends
      in a slash is a member of DirPrefixes. */
  lemma LeadingPartIsDirPrefix(dir: string, p: string)
    requires p != "" && p[|p| - 1] != '/' && EndsAtSegment(dir, p)
    ensures p in DirPrefixes(dir)
  {
    var parts := Split(dir);
    LastSegmentNonEmpty(p);
    JoinSplit(p);
    var pp := Split(p);
    var k := |pp| - 1;
    if |p| == |dir| {
      assert p == dir;
      assert parts[..k + 1] == parts;
    } else {
      var rest := dir[|p| + 1..];
      assert dir == p + "/" + rest;
      SplitAppend(p, rest);
      assert parts[..k + 1] == pp;
    }
    PrefixesUpToMember(parts, |parts|, p);
  }

  /** The paths `__createDir(dir)` ensures exist are exactly the leading parts of `dir` that
      end at a non-empty segment. */
  lemma DirPrefixesExactly(dir: string, p: string)
    ensures p in DirPrefixes(dir) <==> p != "" && p[|p| - 1] != '/' && EndsAtSegment(dir, p)
  {
    if p in DirPrefixes(dir) {
      DirPrefixIsLeadingPart(dir, p);
    }
    if p != "" && p[|p| - 1] != '/' && EndsAtSegment(dir, p) {
      LeadingPartIsDirPrefix(dir, p);
    }
  }

  /** The default destination creates three directories: `NSE`, the year and the month. */
  lemma DefaultDirPrefixes(year: string, month: string)
    requires year != "" && '/' !in year && month != "" && '/' !in month
    ensures DirPrefixes("NSE/" + year + "/" + month) ==
            {"NSE", "NSE/" + year, "NSE/" + year + "/" + month}
  {
    var parts := ["NSE", year, month];
    assert Join(parts[..1]) == "NSE";
    assert Join(parts[..2]) == "NSE/" + year by {
      assert parts[..2][..1] == ["NSE"];
    }
    assert Join(parts) == "NSE/" + year + "/" + month by {
      assert parts[..2] == ["NSE", year];
      assert ["NSE", year][..1] == ["NSE"];
    }
    SplitJoin(parts);
    assert parts[..3] == parts;
    assert PrefixesUpTo(parts, 1) == {"NSE"};
    assert PrefixesUpTo(parts, 2) == {"NSE", "NSE/" + year};
  }

  /** The path `__createDir` has built after walking `i` segments: their join and a slash. */
  function WalkedPath(parts: seq<string>, i: nat): string
    requires i <= |parts|
  {
    if i == 0 then "" else Join(parts[..i]) + "/"
  }

  /** One step of the walk: appending the segment (when non-empty) and a slash moves the
      path one segment on, and the prefixes grow by the path up to that segment. */
  lemma WalkStep(parts: seq<string>, i: nat)
    requires i < |parts|
    ensures WalkedPath(parts, i) + parts[i] == Join(parts[..i + 1])
    ensures parts[i] != "" ==> WalkedPath(parts, i) + parts[i] + "/" == WalkedPath(parts, i + 1)
    ensures parts[i] == "" ==> WalkedPath(parts, i) + "/" == WalkedPath(parts, i + 1)
  {
    if i > 0 {
      assert parts[..i + 1][..i] == parts[..i];
    }
  }

  // ---------------------------------------------------------------------------
  // The file system and the client object

  /** The file system, as the set of paths that exist. */
  class Disk {
    var paths: set<string>

    constructor(existing: set<string>)
      ensures paths == existing
    {
      paths := existing;
    }

    /** `fs.existsSync`. */
    predicate ExistsSync(path: string)
      reads this
    {
      path in paths
    }

    /** `fs.mkdirSync`: creates one path that does not exist yet. */
    method MkdirSync(path: string)
      requires path !in paths
      modifies this
      ensures paths == old(paths) + {path}
    {
      paths := paths + {path};
    }
  }

  /** A `BhavCopy` client: the normalised `dir` option, the directory of the last
      `__createDir` (`None` while it is `undefined`), and the file system it works on. */
  class BhavCopy {
    const customDir: string
    var baseDir: Option<string>
    const fs: Disk

    /** `new BhavCopy({ dir })`, with `dir` `None` when absent, `undefined` or `null`. */
    constructor(dir: Option<string>, fs: Disk)
      ensures customDir == CustomDir(dir) && baseDir == None && this.fs == fs
    {
      customDir := CustomDir(dir);
      baseDir := None;
      this.fs := fs;
    }

    /** `__createDir`: records `dir` as the base directory and walks its `/`-separated
        segments, creating the path up to each non-empty one unless it exists; returns the
        walked path, which is `dir + "/"`. Paths that already exist are left alone, so a
        second call with the same `dir` creates nothing. */
    method CreateDir(dir: string) returns (path: string)
      modifies this, fs
      ensures baseDir == Some(dir)
      ensures path == dir + "/"
      ensures fs.paths == old(fs.paths) + DirPrefixes(dir)
      ensures DirPrefixes(dir) <= old(fs.paths) ==> fs.paths == old(fs.paths)
    {
      baseDir := Some(dir);
      var parts := Split(dir);
      var partsLength := |parts|;
      var i := 0;
      path := "";
      while i < partsLength
        invariant 0 <= i <= partsLength
        invariant path == WalkedPath(parts, i)
        invariant fs.paths == old(fs.paths) + PrefixesUpTo(parts, i)
        invariant baseDir == Some(dir)
      {
        WalkStep(parts, i);
        if parts[i] != "" {
          path := path + parts[i];
          if !fs.ExistsSync(path) {
            fs.MkdirSync(path);
          }
        }
        path := path + "/";
        i := i + 1;
      }
      assert parts[..i] == parts;
      JoinSplit(dir);
    }

    /** The response handling of `__getBhavCopyFromNSE` for one URL and the status its
        request answered with: nothing for an empty URL, else the path the body is piped to
        (`undefined/<name>` before any `__createDir`) or the missing-file message. */
    method GetBhavCopyFromNSE(url: string, status: int) returns (outcome: Option<Outcome>)
      ensures outcome == Classify(if baseDir.Some? then baseDir.value else "undefined", url, status)
    {
      if url == "" {
        return None;
      }
      var originalFileName := SavedName(url);
      var dir := if baseDir.Some? then baseDir.value else "undefined";
      if status == 200 {
        outcome := Some(Saved(dir + "/" + originalFileName));
      } else {
        outcome := Some(NotFound(NotFoundMessage(url)));
      }
    }

    /** `download` up to the hand-off: rejects with the first validation message and
        touches nothing, or creates the destination directories, records the destination
        and yields the URLs whose downloads it starts, with the acknowledgement. */
    method Download(req: Request) returns (r: Result<string, string>, urls: seq<string>)
      modifies this, fs
      ensures Validate(req).Failure? ==>
                && r == Failure(Validate(req).error)
                && urls == []
                && baseDir == old(baseDir) && fs.paths == old(fs.paths)
      ensures Validate(req).Success? ==>
                var c := Validate(req).value;
                var dir := BaseDirFor(customDir, c);
                && r == Success(Acknowledgement)
                && baseDir == Some(dir)
                && fs.paths == old(fs.paths) + DirPrefixes(dir)
                && (Falsy(c.day) ==>
                      |urls| == 31 &&
                      forall i :: 0 <= i < 31 ==> urls[i] == Url(c.month, c.year, ToText(DayCode(i + 1))))
                && (!Falsy(c.day) ==> urls == [Url(c.month, c.year, ToText(c.day))])
    {
      match Validate(req)
      case Failure(e) =>
        r, urls := Failure(e), [];
      case Success(c) =>
        var dir := "NSE/" + c.year + "/" + c.month;
        if customDir != "" {
          dir := customDir;
        }
        var _ := CreateDir(dir);
        urls := GenerateFileNames(c);
        r := Success(Acknowledgement);
    }
  }

  /** A request that names a day, on a client without a custom directory, creates the
      default directories for its year and month and starts one download: the archive of
      that day, whose code writes as two digits denoting the day. For a year written in
      digits, a 200 response saves it as `NSE/<year>/<month>/<file name>` and any other
      status reports the missing file. */
  lemma DayRequestTargets(req: Request, d: int, status: int)
    requires Validate(req).Success? && req.day == Some(Int(d))
    ensures var c := Validate(req).value;
            var y := req.year.value.text;
            var code := ToText(c.day);
            var dir := BaseDirFor("", c);
            && 1 <= d <= 31
            && !Falsy(c.day)
            && |code| == 2 && AllDigits(code) && DecimalValue(code) == d
            && dir == "NSE/" + y + "/" + c.month
            && (AllDigits(y) && status == 200 ==>
                  Classify(dir, Url(c.month, y, code), status) ==
                  Some(Saved("NSE/" + y + "/" + c.month + "/" + FileName(c.month, y, code))))
            && (AllDigits(y) && status != 200 ==>
                  Classify(dir, Url(c.month, y, code), status) ==
                  Some(NotFound("File Not Found on " + BaseUrl + y + "/" + c.month + "/" + code + c.month + y)))
  {
    var c := Validate(req).value;
    DayCodeText(d);
    assert MonthShaped(c.month) by {
      var k :| 0 <= k < 12 && MonthsCode()[k] == c.month;
    }
    if AllDigits(c.year) {
      ClassifyGeneratedUrl(BaseDirFor("", c), c.month, c.year, ToText(c.day), status);
    }
  }
}
