/** The directory loop of the JavaFX tool (MainController.java, `compress`
    and `extFilter`): list the `.jpg`/`.jpeg` files of a directory, sort
    them, choose 7z or zip by total size, skip the directory if its archive
    exists, rename the images to `0..n-1` zero-padded, and hand the renamed
    paths to 7z. The filesystem is a map from every existing path, a
    directory included, to its bytes (a directory's are of no use); moving a file
    can fail for the paths in `fails`; the 7z run is the function
    `sevenZip` of the command line and the filesystem after the renames,
    which gives the written archive or nothing for a failure. */
module JavaArchiver {
  import opened Text
  import opened Decimal
  import opened MemberNaming

  // The filter `.+\.(jpe?g)$`, found anywhere in the path string, ASCII
  // case-insensitive. `.` matches anything but a line terminator; `$`
  // matches at the end of the input or before a final line terminator.

  predicate LineTerminator(c: char) {
    c == '\n' || c == '\r' || c == '\U{0085}' || c == '\U{2028}' || c == '\U{2029}'
  }

  predicate NoTerminators(s: string) {
    forall k :: 0 <= k < |s| ==> !LineTerminator(s[k])
  }

  /** Where `$` can match, outside multi-line mode. */
  predicate DollarAt(s: string, m: nat)
    requires m <= |s|
  {
    || m == |s|
    || (m + 1 == |s| && LineTerminator(s[m]) && !(s[m] == '\n' && m > 0 && s[m - 1] == '\r'))
    || (m + 2 == |s| && s[m] == '\r' && s[m + 1] == '\n')
  }

  predicate JpegAt(s: string, j: nat, m: nat)
    requires j <= m <= |s|
  {
    ToLower(s[j..m]) == "jpg" || ToLower(s[j..m]) == "jpeg"
  }

  /** A match whose `\.` is at `k` and whose group ends at `m`; `.+` needs
      one character before the dot that is not a line terminator. */
  predicate MatchAt(s: string, k: nat, m: nat) {
    1 <= k < m <= |s| && !LineTerminator(s[k - 1]) && s[k] == '.' && JpegAt(s, k + 1, m) && DollarAt(s, m)
  }

  ghost predicate PatternFinds(s: string) {
    exists k: nat, m: nat :: MatchAt(s, k, m)
  }

  /** A match that ends at `m`, with a three- or four-letter group. */
  predicate EndsAt(s: string, m: nat)
    requires m <= |s|
  {
    (m >= 5 && MatchAt(s, m - 4, m)) || (m >= 6 && MatchAt(s, m - 5, m))
  }

  /** `extFilter`: a non-directory whose path string the pattern finds. */
  function ExtFilter(path: string, isDir: bool): (keep: bool)
    ensures keep <==> !isDir && PatternFinds(path)
  {
    var found := EndsAt(path, |path|) || (|path| >= 1 && EndsAt(path, |path| - 1)) || (|path| >= 2 && EndsAt(path, |path| - 2));
    assert PatternFinds(path) ==> found by {
      if PatternFinds(path) {
        var k: nat, m: nat :| MatchAt(path, k, m);
        assert |ToLower(path[k + 1..m])| == m - (k + 1);
      }
    }
    !isDir && found
  }

  /** For a path without line terminators: accepted exactly when it ends in
      `.jpg` or `.jpeg`, in any case, with something before the dot. */
  lemma ExtFilterOrdinaryPath(path: string)
    requires NoTerminators(path)
    ensures ExtFilter(path, false) <==>
      || (|path| >= 5 && ToLower(path[|path| - 4..]) == ".jpg")
      || (|path| >= 6 && ToLower(path[|path| - 5..]) == ".jpeg")
  {
    NoEarlierMatch(path);
    EndsAtOrdinaryPath(path);
  }

  /** A match at the very end is a dot and a group, lower-cased. */
  lemma EndsAtOrdinaryPath(path: string)
    requires NoTerminators(path)
    ensures EndsAt(path, |path|) <==>
      || (|path| >= 5 && ToLower(path[|path| - 4..]) == ".jpg")
      || (|path| >= 6 && ToLower(path[|path| - 5..]) == ".jpeg")
  {
    var n := |path|;
    assert "." + "jpg" == ".jpg" && "." + "jpeg" == ".jpeg";
    if n >= 5 {
      DotAndGroup(path, n - 4, "jpg");
    }
    if n >= 6 {
      DotAndGroup(path, n - 5, "jpeg");
    }
  }

  /** Without line terminators `$` matches only at the very end. */
  lemma NoEarlierMatch(path: string)
    requires NoTerminators(path)
    ensures ExtFilter(path, false) == EndsAt(path, |path|)
  {
    var n := |path|;
    if n >= 1 {
      assert !DollarAt(path, n - 1);
    }
    if n >= 2 {
      assert !DollarAt(path, n - 2);
    }
  }

  /** A match ending at the end of a path without line terminators, with
      its dot at `k`, is the lower-cased tail from `k` being `.` + group. */
  lemma DotAndGroup(path: string, k: nat, group: string)
    requires NoTerminators(path) && 1 <= k < |path|
    requires group == "jpg" || group == "jpeg"
    requires |path| - k == |group| + 1
    ensures MatchAt(path, k, |path|) <==> ToLower(path[k..]) == "." + group
  {
    assert path[k..] == [path[k]] + path[k + 1..|path|];
    DotThenLower(path[k], path[k + 1..|path|], group);
    assert |ToLower(path[k + 1..|path|])| == |group|;
  }

  lemma DotThenLower(c: char, s: string, t: string)
    ensures ToLower([c] + s) == "." + t <==> c == '.' && ToLower(s) == t
  {
    var l := ToLower([c] + s);
    assert l == [LowerChar(c)] + ToLower(s);
    if l == "." + t {
      assert l[1..] == t;
    }
  }

  lemma FilterAcceptsUpperCase()
    ensures ExtFilter("d/p.JPG", false)
  {
    assert MatchAt("d/p.JPG", 3, 7) by {
      assert "d/p.JPG"[4..7] == "JPG";
      assert ToLower("JPG") == "jpg";
    }
  }

  /** The whole path is matched, so a file named only `.jpeg` is accepted:
      the character before the dot is the separator. */
  lemma FilterAcceptsHiddenFile()
    ensures ExtFilter("d/.jpeg", false)
  {
    assert MatchAt("d/.jpeg", 2, 7) by {
      assert "d/.jpeg"[3..7] == "jpeg";
    }
  }

  lemma FilterRejects()
    ensures !ExtFilter(".jpg", false)
    ensures !ExtFilter("d/p.jpg", true)
    ensures !ExtFilter("d/p.png", false)
  {
    RejectsBareExtension();
    RejectsPng();
  }

  lemma RejectsBareExtension()
    ensures !ExtFilter(".jpg", false)
  {
    ExtFilterOrdinaryPath(".jpg");
  }

  lemma RejectsPng()
    ensures !ExtFilter("d/p.png", false)
  {
    ExtFilterOrdinaryPath("d/p.png");
    assert ToLower("d/p.png"[3..]) == ".png";
  }

  /** A directory entry: its path, whether it is a directory, and what
      `fileSize` gives for it (0 when the size cannot be read). */
  datatype JFile = JFile(path: string, isDir: bool, size: nat)

  /** The files of a listing that the filter keeps, in listing order. */
  function Accepted(files: seq<JFile>): (r: seq<JFile>)
    ensures |r| <= |files|
    decreases |files|
  {
    if files == [] then []
    else
      var init := Accepted(files[..|files| - 1]);
      var last := files[|files| - 1];
      init + (if ExtFilter(last.path, last.isDir) then [last] else [])
  }

  /** A file is accepted exactly when it is listed and the filter keeps it. */
  lemma {:induction false} AcceptedMembers(files: seq<JFile>, f: JFile)
    ensures f in Accepted(files) <==> f in files && ExtFilter(f.path, f.isDir)
    decreases |files|
  {
    if files != [] {
      var init := files[..|files| - 1];
      AcceptedMembers(init, f);
      assert files == init + [files[|files| - 1]];
    }
  }

  /** The listing loop (lines 137-143): nothing when the directory stream
      cannot be opened, otherwise the accepted entries in stream order. */
  method ListImages(listing: Option<seq<JFile>>) returns (r: Option<seq<JFile>>)
    ensures r.None? <==> listing.None?
    ensures r.Some? ==> r.value == Accepted(listing.value)
  {
    if listing.None? {
      return None;
    }
    var files := listing.value;
    var images: seq<JFile> := [];
    for k := 0 to |files|
      invariant images == Accepted(files[..k])
    {
      assert files[..k + 1][..k] == files[..k];
      if ExtFilter(files[k].path, files[k].isDir) {
        images := images + [files[k]];
      }
    }
    assert files[..|files|] == files;
    return Some(images);
  }

  // The output type (lines 152-161).

  datatype OutputType = Auto | SevenZip | Zip {
    /** The archive suffix. */
    function Ext(): string {
      match this
      case Auto => "Auto"
      case SevenZip => "cb7"
      case Zip => "cbz"
    }

    /** The extra 7z switches. */
    function Opts(): seq<string> {
      match this
      case Auto => []
      case SevenZip => ["-t7z", "-ms=on"]
      case Zip => ["-tzip"]
    }
  }

  const ZipThreshold: nat := 16 * 1024 * 1024

  function TotalSize(images: seq<JFile>): nat
    decreases |images|
  {
    if images == [] then 0 else TotalSize(images[..|images| - 1]) + images[|images| - 1].size
  }

  /** An explicit choice wins; `Auto` becomes zip above 16 MiB (strictly)
      and 7z otherwise. */
  function ChooseOutputType(chosen: OutputType, total: nat): (t: OutputType)
    ensures t != Auto
    ensures chosen != Auto ==> t == chosen
    ensures chosen == Auto ==> (t == Zip <==> total > ZipThreshold)
  {
    if chosen != Auto then chosen
    else if total > ZipThreshold then Zip
    else SevenZip
  }

  function ArchivePath(dir: string, t: OutputType): string {
    dir + "." + t.Ext()
  }

  /** The archive names of one directory differ by type, and never coincide
      with a file inside the directory. */
  lemma ArchivePathsDistinct(dir: string, t: OutputType, u: OutputType, name: string)
    requires t != Auto && u != Auto && t != u
    ensures ArchivePath(dir, t) != ArchivePath(dir, u)
    ensures ArchivePath(dir, t) != dir + "/" + name
  {
    var a, b := ArchivePath(dir, t), ArchivePath(dir, u);
    assert a[|dir| + 1..] == t.Ext() && b[|dir| + 1..] == u.Ext();
    assert a[|dir|] == '.' && (dir + "/" + name)[|dir|] == '/';
  }

  // The target names (lines 163-168).

  /** `ceil(log10(n))` for `n >= 2`: the digit count of `n - 1`. */
  function Width(n: nat): (w: nat)
    requires n >= 2
    ensures w >= 1 && Pow10(w - 1) < n <= Pow10(w)
  {
    DecimalLength(n - 1);
    |ToDecimal(n - 1)|
  }

  /** `dir.resolve(name)`. */
  function Resolve(dir: string, name: string): string {
    dir + "/" + name
  }

  /** `String.format("%0<w>d.jpg", i)`. */
  function TargetName(i: nat, w: nat): string {
    ZeroPad(i, w) + ".jpg"
  }

  function Targets(dir: string, n: nat): (r: seq<string>)
    requires n >= 2
    ensures |r| == n
  {
    seq(n, i requires 0 <= i < n => Resolve(dir, TargetName(i, Width(n))))
  }

  lemma DecimalFitsWidth(i: nat, n: nat)
    requires 2 <= n && i < n
    ensures |ToDecimal(i)| <= Width(n)
  {
    DigitMonotone(i, n - 1);
    DigitIsDecimalLength(i);
    DigitIsDecimalLength(n - 1);
  }

  /** Every target is `dir/` + `i` padded to exactly the width + `.jpg`. */
  lemma TargetShape(dir: string, n: nat, i: nat)
    requires 2 <= n && i < n
    ensures Targets(dir, n)[i] == dir + "/" + ZeroPad(i, Width(n)) + ".jpg"
    ensures |ZeroPad(i, Width(n))| == Width(n)
    ensures Value(ZeroPad(i, Width(n))) == i
  {
    DecimalFitsWidth(i, n);
  }

  /** Targets sort as text in index order, so they are distinct. */
  lemma TargetsOrdered(dir: string, n: nat, i: nat, j: nat)
    requires 2 <= n && i < j < n
    ensures LexCompare(Targets(dir, n)[i], Targets(dir, n)[j]) == Less
  {
    var w := Width(n);
    DecimalFitsWidth(i, n);
    DecimalFitsWidth(j, n);
    PaddedOrder(i, j, w);
    var a, b := ZeroPad(i, w), ZeroPad(j, w);
    LexHead(a, b, ".jpg", ".jpg");
    assert Targets(dir, n)[i] == (dir + "/") + (a + ".jpg");
    assert Targets(dir, n)[j] == (dir + "/") + (b + ".jpg");
    LexCommonPrefix(dir + "/", a + ".jpg", b + ".jpg");
  }

  /** Ten images get one digit: the width is `ceil(log10 10) = 1`. */
  lemma TenTargets()
    ensures Width(10) == 1 && Width(11) == 2
    ensures Targets("d", 10)[9] == "d/9.jpg"
  {
    WidthOfTen();
    WidthOfEleven();
    LastOfTenTargets();
  }

  lemma WidthOfTen()
    ensures Width(10) == 1
  {
    assert ToDecimal(9) == "9";
  }

  lemma WidthOfEleven()
    ensures Width(11) == 2
  {
    assert ToDecimal(10) == "10";
  }

  lemma LastOfTenTargets()
    ensures Targets("d", 10)[9] == "d/9.jpg"
  {
    WidthOfTen();
    assert ZeroPad(9, 1) == "9";
    assert Targets("d", 10)[9] == Resolve("d", TargetName(9, 1));
  }

  // The rename loop (lines 170-186).

  /** Every path that exists, file or directory, is a key, and a path is an
      exact, case-sensitive string naming one file: `Files.exists` is `in`
      on a case-sensitive file system, so a directory at a target or at the
      archive path counts as existing. */
  type FileSystem = map<string, Bytes>

  datatype RenameEnd =
    | AllMoved
    | SourceIsTarget(at: nat)
    | TargetExists(at: nat)
    | MoveFailed(at: nat)

  /** How many positions were moved. */
  function Moved(e: RenameEnd, length: nat): nat {
    if e.AllMoved? then length else e.at
  }

  /** `Files.move` of a file to a path that does not exist. */
  function MoveFile(fs: FileSystem, source: string, target: string): FileSystem
    requires source in fs
  {
    (fs - {source})[target := fs[source]]
  }

  /** The loop from position `i` on: stop at a source that is its own
      target, at a target that exists, or at a move that fails (a missing
      source, or one in `fails`). */
  function RenameFrom(images: seq<string>, targets: seq<string>, fs: FileSystem, fails: set<string>, i: nat): (r: (FileSystem, RenameEnd))
    ensures !r.1.AllMoved? ==> i <= r.1.at < Min(|images|, |targets|)
    decreases |images| - i
  {
    if i >= Min(|images|, |targets|) then (fs, AllMoved)
    else
      var source, target := images[i], targets[i];
      if source == target then (fs, SourceIsTarget(i))
      else if target in fs then (fs, TargetExists(i))
      else if source !in fs || source in fails then (fs, MoveFailed(i))
      else RenameFrom(images, targets, MoveFile(fs, source, target), fails, i + 1)
  }

  /** The loop as written. */
  method RenameLoop(images: seq<string>, targets: seq<string>, fs: FileSystem, fails: set<string>)
    returns (after: FileSystem, end: RenameEnd)
    ensures (after, end) == RenameFrom(images, targets, fs, fails, 0)
  {
    after := fs;
    var length := Min(|images|, |targets|);
    var i := 0;
    while i < length
      invariant i <= length
      invariant RenameFrom(images, targets, after, fails, i) == RenameFrom(images, targets, fs, fails, 0)
    {
      var source, target := images[i], targets[i];
      if source == target {
        return after, SourceIsTarget(i);
      }
      if target in after {
        return after, TargetExists(i);
      }
      if source !in after || source in fails {
        return after, MoveFailed(i);
      }
      after := MoveFile(after, source, target);
      i := i + 1;
    }
    return after, AllMoved;
  }

  /** A move never overwrites: every file that is not one of the images is
      still there with its contents. */
  lemma {:induction false} RenameKeepsOthers(images: seq<string>, targets: seq<string>, fs: FileSystem, fails: set<string>, i: nat, p: string)
    requires p in fs && p !in images
    ensures p in RenameFrom(images, targets, fs, fails, i).0
    ensures RenameFrom(images, targets, fs, fails, i).0[p] == fs[p]
    decreases |images| - i
  {
    if i < Min(|images|, |targets|) {
      var source, target := images[i], targets[i];
      if source != target && target !in fs && source in fs && source !in fails {
        RenameKeepsOthers(images, targets, MoveFile(fs, source, target), fails, i + 1, p);
      }
    }
  }

  /** The loop stops for the reason it reports, and every earlier position
      was moved: its source differed from its target. */
  lemma {:induction false} RenameStops(images: seq<string>, targets: seq<string>, fs: FileSystem, fails: set<string>, i: nat)
    requires i <= Min(|images|, |targets|)
    ensures var (after, end) := RenameFrom(images, targets, fs, fails, i);
      && i <= Moved(end, Min(|images|, |targets|)) <= Min(|images|, |targets|)
      && (forall j :: i <= j < Moved(end, Min(|images|, |targets|)) ==> images[j] != targets[j])
      && (end.SourceIsTarget? ==> images[end.at] == targets[end.at])
      && (end.TargetExists? ==> images[end.at] != targets[end.at] && targets[end.at] in after)
      && (end.MoveFailed? ==> images[end.at] != targets[end.at] && targets[end.at] !in after
                              && (images[end.at] !in after || images[end.at] in fails))
    decreases |images| - i
  {
    if i < Min(|images|, |targets|) {
      var source, target := images[i], targets[i];
      if source != target && target !in fs && source in fs && source !in fails {
        RenameStops(images, targets, MoveFile(fs, source, target), fails, i + 1);
      }
    }
  }

  predicate Distinct(s: seq<string>) {
    forall j, k :: 0 <= j < k < |s| ==> s[j] != s[k]
  }

  lemma MoveFileCount(fs: FileSystem, source: string, target: string)
    requires source in fs && target !in fs
    ensures |MoveFile(fs, source, target)| == |fs|
  {
    var next := MoveFile(fs, source, target);
    assert next.Keys == fs.Keys - {source} + {target};
    assert |fs.Keys - {source}| == |fs.Keys| - 1;
  }

  /** Moving never changes the number of files. */
  lemma {:induction false} RenameKeepsCount(images: seq<string>, targets: seq<string>, fs: FileSystem, fails: set<string>, i: nat)
    ensures |RenameFrom(images, targets, fs, fails, i).0| == |fs|
    decreases |images| - i
  {
    if i < Min(|images|, |targets|) {
      var source, target := images[i], targets[i];
      if source != target && target !in fs && source in fs && source !in fails {
        MoveFileCount(fs, source, target);
        RenameKeepsCount(images, targets, MoveFile(fs, source, target), fails, i + 1);
      }
    }
  }

  /** When the images are distinct files that exist, which the listing
      guarantees, each moved image's bytes are at its target afterward. */
  lemma {:induction false} RenameMovesContents(images: seq<string>, targets: seq<string>, fs: FileSystem, fails: set<string>, i: nat)
    requires Distinct(images)
    requires forall j :: i <= j < |images| ==> images[j] in fs
    ensures var (after, end) := RenameFrom(images, targets, fs, fails, i);
      forall j :: i <= j < Moved(end, Min(|images|, |targets|)) ==>
        targets[j] in after && after[targets[j]] == fs[images[j]]
    decreases |images| - i
  {
    if i < Min(|images|, |targets|) {
      var source, target := images[i], targets[i];
      if source != target && target !in fs && source in fs && source !in fails {
        var next := MoveFile(fs, source, target);
        forall j | i + 1 <= j < |images| ensures images[j] in next {
          assert images[j] != source;
        }
        RenameMovesContents(images, targets, next, fails, i + 1);
        forall j | i + 1 <= j < |images| ensures images[j] != target {
          assert images[j] in fs;
        }
        RenameTargetStays(images, targets, next, fails, i + 1, target);
        var r := RenameFrom(images, targets, next, fails, i + 1);
        assert RenameFrom(images, targets, fs, fails, i) == r;
        forall j | i + 1 <= j < Moved(r.1, Min(|images|, |targets|))
          ensures targets[j] in r.0 && r.0[targets[j]] == fs[images[j]]
        {
          assert images[j] != source;
        }
      }
    }
  }

  /** A moved target is never moved away or overwritten by a later step. */
  lemma {:induction false} RenameTargetStays(images: seq<string>, targets: seq<string>, fs: FileSystem, fails: set<string>, i: nat, p: string)
    requires p in fs
    requires forall j :: i <= j < |images| ==> images[j] != p
    ensures p in RenameFrom(images, targets, fs, fails, i).0
    ensures RenameFrom(images, targets, fs, fails, i).0[p] == fs[p]
    decreases |images| - i
  {
    if i < Min(|images|, |targets|) {
      var source, target := images[i], targets[i];
      if source != target && target !in fs && source in fs && source !in fails {
        RenameTargetStays(images, targets, MoveFile(fs, source, target), fails, i + 1, p);
      }
    }
  }

  /** The images from the stop position on are not moved: each is still at
      its source with its bytes. */
  lemma {:induction false} RenameLeavesRest(images: seq<string>, targets: seq<string>, fs: FileSystem, fails: set<string>, i: nat, j: nat)
    requires Distinct(images)
    requires i <= j < |images| && images[j] in fs
    ensures var (after, end) := RenameFrom(images, targets, fs, fails, i);
      j >= Moved(end, Min(|images|, |targets|)) ==> images[j] in after && after[images[j]] == fs[images[j]]
    decreases |images| - i
  {
    if i < Min(|images|, |targets|) {
      var source, target := images[i], targets[i];
      if source != target && target !in fs && source in fs && source !in fails {
        var next := MoveFile(fs, source, target);
        RenameStops(images, targets, next, fails, i + 1);
        if j > i {
          assert images[j] != source;
          assert images[j] != target;
          RenameLeavesRest(images, targets, next, fails, i + 1, j);
        }
      }
    }
  }

  // The directory loop of `compress` (lines 128-215).

  /** A directory to compress: its path, and its listing (none when the
      directory stream cannot be opened). The listing and its sizes are
      taken as given; they are not derived from the file system. */
  datatype JDir = JDir(path: string, listing: Option<seq<JFile>>)

  /** Why the loop stopped at a directory. `SingleImage` is a directory of
      one image, whose format string `%00d.jpg` the model does not follow. */
  datatype DirEnd = ReadFailed | EmptyDirectory | SingleImage | SevenZipFailed

  /** One pass of the loop: the filesystem after it, the 7z command it ran,
      and whether it breaks the loop. */
  datatype Step = Step(fs: FileSystem, command: Option<seq<string>>, stop: Option<DirEnd>)

  /** The command line handed to 7z (lines 188-195). */
  function SevenZipCommand(command: string, t: OutputType, archive: string, targets: seq<string>): seq<string> {
    [command, "a", "-mx=9", "-bb3"] + t.Opts() + [archive] + targets
  }

  /** The command adds to `archive`, at maximum compression, with the
      type's switches, every target in order. */
  lemma SevenZipCommandShape(command: string, t: OutputType, archive: string, targets: seq<string>)
    ensures var cmd := SevenZipCommand(command, t, archive, targets);
      && |cmd| == 5 + |t.Opts()| + |targets|
      && cmd[..4] == [command, "a", "-mx=9", "-bb3"]
      && cmd[4..4 + |t.Opts()|] == t.Opts() && cmd[4 + |t.Opts()|] == archive
      && cmd[|cmd| - |targets|..] == targets
  {
  }

  function Paths(files: seq<JFile>): (r: seq<string>)
    ensures |r| == |files| && forall k :: 0 <= k < |files| ==> r[k] == files[k].path
  {
    seq(|files|, k requires 0 <= k < |files| => files[k].path)
  }

  /** The pass for one directory. */
  function DirStep(d: JDir, chosen: OutputType, sort: seq<JFile> -> seq<JFile>, fails: set<string>,
                   sevenZip: (seq<string>, FileSystem) -> Option<Bytes>, command: string, fs: FileSystem): Step
  {
    if d.listing.None? then Step(fs, None, Some(ReadFailed))
    else
      var images := Accepted(d.listing.value);
      if images == [] then Step(fs, None, Some(EmptyDirectory))
      else SortedStep(d.path, sort(images), chosen, fails, sevenZip, command, fs)
  }

  /** The pass once the images are sorted: skip an existing archive, then
      rename and run 7z. */
  function SortedStep(dir: string, sorted: seq<JFile>, chosen: OutputType, fails: set<string>,
                      sevenZip: (seq<string>, FileSystem) -> Option<Bytes>, command: string, fs: FileSystem): Step
  {
    var t := ChooseOutputType(chosen, TotalSize(sorted));
    if ArchivePath(dir, t) in fs then Step(fs, None, None)
    else if |sorted| < 2 then Step(fs, None, Some(SingleImage))
    else ArchiveStep(dir, sorted, t, fails, sevenZip, command, fs)
  }

  function ArchiveStep(dir: string, sorted: seq<JFile>, t: OutputType, fails: set<string>,
                       sevenZip: (seq<string>, FileSystem) -> Option<Bytes>, command: string, fs: FileSystem): Step
    requires |sorted| >= 2
  {
    var archive := ArchivePath(dir, t);
    var targets := Targets(dir, |sorted|);
    var renamed := RenameFrom(Paths(sorted), targets, fs, fails, 0).0;
    var cmd := SevenZipCommand(command, t, archive, targets);
    match sevenZip(cmd, renamed)
    case None => Step(renamed, Some(cmd), Some(SevenZipFailed))
    case Some(written) => Step(renamed[archive := written], Some(cmd), None)
  }

  /** The pass as written. */
  method ProcessDirectory(d: JDir, chosen: OutputType, sort: seq<JFile> -> seq<JFile>, fails: set<string>,
                          sevenZip: (seq<string>, FileSystem) -> Option<Bytes>, command: string, fs: FileSystem)
    returns (step: Step)
    ensures step == DirStep(d, chosen, sort, fails, sevenZip, command, fs)
  {
    var listed := ListImages(d.listing);
    if listed.None? {
      return Step(fs, None, Some(ReadFailed));
    }
    var images := listed.value;
    if |images| == 0 {
      return Step(fs, None, Some(EmptyDirectory));
    }
    var sorted := sort(images);
    var t := ChooseOutputType(chosen, TotalSize(sorted));
    var archive := ArchivePath(d.path, t);
    if archive in fs {
      return Step(fs, None, None);
    }
    if |sorted| < 2 {
      return Step(fs, None, Some(SingleImage));
    }
    var targets := Targets(d.path, |sorted|);
    var renamed, _ := RenameLoop(Paths(sorted), targets, fs, fails);
    var cmd := SevenZipCommand(command, t, archive, targets);
    var result := sevenZip(cmd, renamed);
    if result.None? {
      return Step(renamed, Some(cmd), Some(SevenZipFailed));
    }
    return Step(renamed[archive := result.value], Some(cmd), None);
  }

  /** The whole run: the final filesystem, the 7z commands in order, and the
      directory at which the loop broke off, if it did. */
  datatype Run = Run(fs: FileSystem, commands: seq<seq<string>>, stopped: Option<(nat, DirEnd)>)

  /** The commands issued once a pass is done: one more when it ran 7z. */
  function Issue(issued: seq<seq<string>>, step: Step): (now: seq<seq<string>>)
    ensures now == if step.command.Some? then issued + [step.command.value] else issued
  {
    issued + (if step.command.Some? then [step.command.value] else [])
  }

  /** The loop from directory `k` on, with the commands issued so far. */
  function CompressFrom(dirs: seq<JDir>, chosen: OutputType, sort: seq<JFile> -> seq<JFile>, fails: set<string>,
                        sevenZip: (seq<string>, FileSystem) -> Option<Bytes>, command: string,
                        fs: FileSystem, issued: seq<seq<string>>, k: nat): Run
    decreases |dirs| - k
  {
    if k >= |dirs| then Run(fs, issued, None)
    else
      var step := DirStep(dirs[k], chosen, sort, fails, sevenZip, command, fs);
      var now := Issue(issued, step);
      if step.stop.Some? then Run(step.fs, now, Some((k, step.stop.value)))
      else CompressFrom(dirs, chosen, sort, fails, sevenZip, command, step.fs, now, k + 1)
  }

  /** `compress`'s loop as written: `continue` on an existing archive,
      `break` on a read error, an empty directory or a 7z failure. */
  method Compress(dirs: seq<JDir>, chosen: OutputType, sort: seq<JFile> -> seq<JFile>, fails: set<string>,
                  sevenZip: (seq<string>, FileSystem) -> Option<Bytes>, command: string, fs: FileSystem)
    returns (run: Run)
    ensures run == CompressFrom(dirs, chosen, sort, fails, sevenZip, command, fs, [], 0)
  {
    var current := fs;
    var commands: seq<seq<string>> := [];
    var k := 0;
    while k < |dirs|
      invariant k <= |dirs|
      invariant CompressFrom(dirs, chosen, sort, fails, sevenZip, command, current, commands, k)
                == CompressFrom(dirs, chosen, sort, fails, sevenZip, command, fs, [], 0)
    {
      var step := ProcessDirectory(dirs[k], chosen, sort, fails, sevenZip, command, current);
      CompressFromStep(dirs, chosen, sort, fails, sevenZip, command, current, commands, k, step);
      ghost var before := commands;
      if step.command.Some? {
        commands := commands + [step.command.value];
      }
      assert commands == Issue(before, step);
      if step.stop.Some? {
        return Run(step.fs, commands, Some((k, step.stop.value)));
      }
      current := step.fs;
      k := k + 1;
    }
    return Run(current, commands, None);
  }

  /** One turn of the loop, as `CompressFrom` sees it. */
  lemma CompressFromStep(dirs: seq<JDir>, chosen: OutputType, sort: seq<JFile> -> seq<JFile>, fails: set<string>,
                         sevenZip: (seq<string>, FileSystem) -> Option<Bytes>, command: string,
                         fs: FileSystem, issued: seq<seq<string>>, k: nat, step: Step)
    requires k < |dirs| && step == DirStep(dirs[k], chosen, sort, fails, sevenZip, command, fs)
    ensures var now := Issue(issued, step);
      CompressFrom(dirs, chosen, sort, fails, sevenZip, command, fs, issued, k)
      == if step.stop.Some? then Run(step.fs, now, Some((k, step.stop.value)))
         else CompressFrom(dirs, chosen, sort, fails, sevenZip, command, step.fs, now, k + 1)
  {
  }

  /** After a `break`, later directories are never looked at: appending
      directories to the list changes nothing. */
  lemma {:induction false} BreakIgnoresLaterDirectories(dirs: seq<JDir>, more: seq<JDir>, chosen: OutputType,
                                                        sort: seq<JFile> -> seq<JFile>, fails: set<string>,
                                                        sevenZip: (seq<string>, FileSystem) -> Option<Bytes>, command: string,
                                                        fs: FileSystem, issued: seq<seq<string>>, k: nat)
    requires CompressFrom(dirs, chosen, sort, fails, sevenZip, command, fs, issued, k).stopped.Some?
    ensures CompressFrom(dirs + more, chosen, sort, fails, sevenZip, command, fs, issued, k)
            == CompressFrom(dirs, chosen, sort, fails, sevenZip, command, fs, issued, k)
    decreases |dirs| - k
  {
    assert k < |dirs|;
    assert (dirs + more)[k] == dirs[k];
    var step := DirStep(dirs[k], chosen, sort, fails, sevenZip, command, fs);
    if step.stop.None? {
      var now := Issue(issued, step);
      BreakIgnoresLaterDirectories(dirs, more, chosen, sort, fails, sevenZip, command, step.fs, now, k + 1);
    }
  }

  /** The `continue` of line 161: when the archive of the chosen type
      already exists, the pass changes nothing, runs no 7z and does not
      break. */
  lemma DirStepSkips(d: JDir, chosen: OutputType, sort: seq<JFile> -> seq<JFile>, fails: set<string>,
                     sevenZip: (seq<string>, FileSystem) -> Option<Bytes>, command: string, fs: FileSystem)
    requires d.listing.Some? && Accepted(d.listing.value) != []
    requires ArchivePath(d.path, ChooseOutputType(chosen, TotalSize(sort(Accepted(d.listing.value))))) in fs
    ensures DirStep(d, chosen, sort, fails, sevenZip, command, fs) == Step(fs, None, None)
  {
  }

  /** So the loop goes on with the next directory, the file system and the
      issued commands as they were. */
  lemma CompressFromSkips(dirs: seq<JDir>, chosen: OutputType, sort: seq<JFile> -> seq<JFile>, fails: set<string>,
                          sevenZip: (seq<string>, FileSystem) -> Option<Bytes>, command: string,
                          fs: FileSystem, issued: seq<seq<string>>, k: nat)
    requires k < |dirs| && dirs[k].listing.Some? && Accepted(dirs[k].listing.value) != []
    requires ArchivePath(dirs[k].path, ChooseOutputType(chosen, TotalSize(sort(Accepted(dirs[k].listing.value))))) in fs
    ensures CompressFrom(dirs, chosen, sort, fails, sevenZip, command, fs, issued, k)
            == CompressFrom(dirs, chosen, sort, fails, sevenZip, command, fs, issued, k + 1)
  {
    DirStepSkips(dirs[k], chosen, sort, fails, sevenZip, command, fs);
    assert Issue(issued, Step(fs, None, None)) == issued;
  }

  /** A pass never overwrites a file: every file that is not one of the
      directory's images keeps its contents. This needs the sort to return a
      permutation of the images. */
  lemma DirStepKeepsOthers(d: JDir, chosen: OutputType, sort: seq<JFile> -> seq<JFile>, fails: set<string>,
                           sevenZip: (seq<string>, FileSystem) -> Option<Bytes>, command: string, fs: FileSystem, p: string)
    requires p in fs
    requires d.listing.Some? ==> forall f :: f in Accepted(d.listing.value) ==> f.path != p
    requires d.listing.Some? ==> multiset(sort(Accepted(d.listing.value))) == multiset(Accepted(d.listing.value))
    ensures p in DirStep(d, chosen, sort, fails, sevenZip, command, fs).fs
    ensures DirStep(d, chosen, sort, fails, sevenZip, command, fs).fs[p] == fs[p]
  {
    if d.listing.Some? {
      var images := Accepted(d.listing.value);
      if images != [] {
        var sorted := sort(images);
        var t := ChooseOutputType(chosen, TotalSize(sorted));
        var archive := ArchivePath(d.path, t);
        if archive !in fs && |sorted| >= 2 {
          assert p !in Paths(sorted) by {
            forall k | 0 <= k < |sorted| ensures sorted[k].path != p {
              assert sorted[k] in multiset(images);
            }
          }
          ArchiveStepKeepsOthers(d.path, sorted, t, fails, sevenZip, command, fs, p);
        }
      }
    }
  }

  lemma ArchiveStepKeepsOthers(dir: string, sorted: seq<JFile>, t: OutputType, fails: set<string>,
                               sevenZip: (seq<string>, FileSystem) -> Option<Bytes>, command: string, fs: FileSystem, p: string)
    requires |sorted| >= 2 && ArchivePath(dir, t) !in fs
    requires p in fs && p !in Paths(sorted)
    ensures p in ArchiveStep(dir, sorted, t, fails, sevenZip, command, fs).fs
    ensures ArchiveStep(dir, sorted, t, fails, sevenZip, command, fs).fs[p] == fs[p]
  {
    var archive := ArchivePath(dir, t);
    var targets := Targets(dir, |sorted|);
    RenameKeepsOthers(Paths(sorted), targets, fs, fails, 0, p);
    var renamed := RenameFrom(Paths(sorted), targets, fs, fails, 0).0;
    var cmd := SevenZipCommand(command, t, archive, targets);
    var step := ArchiveStep(dir, sorted, t, fails, sevenZip, command, fs);
    if sevenZip(cmd, renamed).None? {
      assert step.fs == renamed;
    } else {
      assert step.fs == renamed[archive := sevenZip(cmd, renamed).value];
      assert p != archive;
    }
  }

  /** A pass that runs 7z had at least two images and no archive yet; the
      command names that fresh archive and lists every target, in index
      order, even when the renames stopped early. */
  lemma DirStepCommand(d: JDir, chosen: OutputType, sort: seq<JFile> -> seq<JFile>, fails: set<string>,
                       sevenZip: (seq<string>, FileSystem) -> Option<Bytes>, command: string, fs: FileSystem)
    requires DirStep(d, chosen, sort, fails, sevenZip, command, fs).command.Some?
    ensures d.listing.Some? && |sort(Accepted(d.listing.value))| >= 2
    ensures var sorted := sort(Accepted(d.listing.value));
      var t := ChooseOutputType(chosen, TotalSize(sorted));
      var cmd := DirStep(d, chosen, sort, fails, sevenZip, command, fs).command.value;
      && ArchivePath(d.path, t) !in fs
      && cmd[4 + |t.Opts()|] == ArchivePath(d.path, t)
      && cmd[|cmd| - |sorted|..] == Targets(d.path, |sorted|)
  {
    var step := DirStep(d, chosen, sort, fails, sevenZip, command, fs);
    var images := Accepted(d.listing.value);
    var sorted := sort(images);
    var t := ChooseOutputType(chosen, TotalSize(sorted));
    var archive, targets := ArchivePath(d.path, t), Targets(d.path, |sorted|);
    assert step == SortedStep(d.path, sorted, chosen, fails, sevenZip, command, fs);
    assert archive !in fs && |sorted| >= 2;
    assert step == ArchiveStep(d.path, sorted, t, fails, sevenZip, command, fs);
    assert step.command == Some(SevenZipCommand(command, t, archive, targets));
    SevenZipCommandShape(command, t, archive, targets);
  }
}
