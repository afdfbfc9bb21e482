/** The Rust tool's archive pipeline (src/main.rs, `main`): every image is
    trial-compressed into a one-entry scratch archive, kept compressed only if
    that made it strictly smaller, and the results are written in sorted
    order to `<dir>.cbz`, compressed ones copied raw and the others stored.
    The compressor is the function `deflate`; reading a compressed entry back
    is `inflate`. */
module CbzArchive {
  import opened Text
  import opened ImageFilter
  import opened MemberNaming
  import opened NaturalOrder

  datatype Method = Stored | Deflated

  /** A zip entry: its name, its compression method and its payload. */
  datatype Entry = Entry(name: string, compression: Method, payload: Bytes)

  /** What one image's task returns: its scratch archive's only entry, the
      original size, and the flag `compress < origins`. */
  datatype Encoded = Encoded(trial: Entry, size: nat, compressed: bool)

  datatype Error =
    | ReadDirFailed(dir: string)
    | ListingFailed(dir: string)
    | InvalidExtension(image: string)
    | Unreadable(image: string)

  datatype Result<T> = Success(value: T) | Failure(error: Error)

  /** `inflate` reads back what `deflate` wrote. */
  ghost predicate Inverse(deflate: Bytes -> Bytes, inflate: Bytes -> Bytes) {
    forall data :: inflate(deflate(data)) == data
  }

  /** The closure run for the image at sorted index `i` of `count` (lines 89-140). */
  function EncodeImage(i: nat, count: nat, image: FileEntry, deflate: Bytes -> Bytes): Result<Encoded> {
    match Extension(image.name)
    case None => Failure(InvalidExtension(image.name))
    case Some(ext) =>
      var name := MemberName(i, count, ext);
      match image.content
      case None => Failure(Unreadable(image.name))
      case Some(data) =>
        var payload := deflate(data);
        var compress, origins := |payload|, |data|;
        Success(Encoded(Entry(name, Deflated, payload), origins, compress < origins))
  }

  /** The closures of all images, in sorted order (`par_iter().enumerate()`). */
  function Tasks(images: seq<FileEntry>, deflate: Bytes -> Bytes): (ts: seq<Result<Encoded>>)
    ensures |ts| == |images|
  {
    seq(|images|, k requires 0 <= k < |images| => EncodeImage(k, |images|, images[k], deflate))
  }

  /** Task results from index `k` on, collected into one `Result` (line 141):
      all values, or the error of the first failing task. */
  function Collect(tasks: seq<Result<Encoded>>, k: nat): Result<seq<Encoded>>
    requires k <= |tasks|
    decreases |tasks| - k
  {
    if k == |tasks| then Success([])
    else if tasks[k].Failure? then Failure(tasks[k].error)
    else
      var tail := Collect(tasks, k + 1);
      if tail.Failure? then tail else Success([tasks[k].value] + tail.value)
  }

  /** Collecting succeeds iff every task does, and then holds each task's
      value at its index. */
  lemma {:induction false} CollectResults(tasks: seq<Result<Encoded>>, k: nat)
    requires k <= |tasks|
    ensures Collect(tasks, k).Success? <==> forall j :: k <= j < |tasks| ==> tasks[j].Success?
    ensures Collect(tasks, k).Success? ==>
      && |Collect(tasks, k).value| == |tasks| - k
      && forall j :: k <= j < |tasks| ==> Collect(tasks, k).value[j - k] == tasks[j].value
    decreases |tasks| - k
  {
    if k < |tasks| {
      CollectResults(tasks, k + 1);
      var tail := Collect(tasks, k + 1);
      if tasks[k].Success? && tail.Success? {
        var r := [tasks[k].value] + tail.value;
        forall j | k < j < |tasks|
          ensures r[j - k] == tasks[j].value
        {
          assert r[j - k] == tail.value[j - (k + 1)];
        }
      }
    }
  }

  /** Line 141: all images encoded, or the first error. */
  function EncodeAll(images: seq<FileEntry>, deflate: Bytes -> Bytes): Result<seq<Encoded>> {
    Collect(Tasks(images, deflate), 0)
  }

  /** A task fails exactly when its image has no extension or cannot be
      read. */
  lemma EncodeImageFails(i: nat, count: nat, image: FileEntry, deflate: Bytes -> Bytes)
    ensures EncodeImage(i, count, image, deflate).Failure? <==> Extension(image.name).None? || image.content.None?
  {
  }

  /** Encoding the directory fails exactly when some image has no extension
      or cannot be read. */
  lemma EncodeAllFails(images: seq<FileEntry>, deflate: Bytes -> Bytes)
    ensures EncodeAll(images, deflate).Failure?
            <==> exists k :: 0 <= k < |images| && (Extension(images[k].name).None? || images[k].content.None?)
  {
    var ts := Tasks(images, deflate);
    CollectResults(ts, 0);
    forall k | 0 <= k < |images|
      ensures ts[k].Failure? <==> Extension(images[k].name).None? || images[k].content.None?
    {
      EncodeImageFails(k, |images|, images[k], deflate);
    }
  }

  function Decompress(e: Entry, inflate: Bytes -> Bytes): Bytes {
    match e.compression
    case Stored => e.payload
    case Deflated => inflate(e.payload)
  }

  /** Lines 146-157: a compressed result is copied raw, any other is read
      back and written stored under the same name. */
  function FinalEntry(x: Encoded, inflate: Bytes -> Bytes): Entry {
    if x.compressed then x.trial else Entry(x.trial.name, Stored, Decompress(x.trial, inflate))
  }

  function Assembled(results: seq<Encoded>, inflate: Bytes -> Bytes): seq<Entry> {
    seq(|results|, k requires 0 <= k < |results| => FinalEntry(results[k], inflate))
  }

  /** The output archive as it is being written. */
  class ZipWriter {
    var entries: seq<Entry>
    var finished: bool

    constructor ()
      ensures entries == [] && !finished
    {
      entries := [];
      finished := false;
    }

    /** `raw_copy_file`: the entry's compressed bytes, header and method as
        they are. */
    method RawCopyFile(e: Entry)
      requires !finished
      modifies this
      ensures entries == old(entries) + [e] && finished == old(finished)
    {
      entries := entries + [e];
    }

    /** `start_file` with `Stored`, then the bytes copied in. */
    method WriteStored(name: string, data: Bytes)
      requires !finished
      modifies this
      ensures entries == old(entries) + [Entry(name, Stored, data)] && finished == old(finished)
    {
      entries := entries + [Entry(name, Stored, data)];
    }

    method Finish()
      modifies this
      ensures finished && entries == old(entries)
    {
      finished := true;
    }
  }

  /** The assembly loop (lines 143-160). */
  method WriteArchive(results: seq<Encoded>, inflate: Bytes -> Bytes) returns (zip: ZipWriter)
    ensures fresh(zip) && zip.finished
    ensures zip.entries == Assembled(results, inflate)
  {
    zip := new ZipWriter();
    for k := 0 to |results|
      invariant !zip.finished
      invariant zip.entries == Assembled(results[..k], inflate)
    {
      var x := results[k];
      if x.compressed {
        zip.RawCopyFile(x.trial);
      } else {
        var data := Decompress(x.trial, inflate);
        zip.WriteStored(x.trial.name, data);
      }
      assert Assembled(results[..k + 1], inflate) == Assembled(results[..k], inflate) + [FinalEntry(x, inflate)];
    }
    assert results[..|results|] == results;
    zip.Finish();
  }

  // One directory, end to end.

  /** A directory argument: its path and its `read_dir` listing (none when
      the directory cannot be read). */
  datatype Dir = Dir(path: string, listing: Option<seq<Listed>>)

  datatype Cbz = Cbz(path: string, entries: seq<Entry>)

  datatype DirOutcome =
    | Failed(error: Error)
    | NoImages
    | Written(archive: Cbz)

  function EntryName(e: FileEntry): string {
    e.name
  }

  /** The sorted images of a directory whose listing is readable. */
  ghost function SortedImages(listing: seq<Listed>): seq<FileEntry>
    requires forall k :: 0 <= k < |listing| ==> listing[k].Listed?
  {
    SortImages(Kept(Entries(listing)), EntryName)
  }

  /** What one pass of the directory loop yields. */
  ghost function DirectoryOutcome(d: Dir, deflate: Bytes -> Bytes, inflate: Bytes -> Bytes): DirOutcome {
    if d.listing.None? then Failed(ReadDirFailed(d.path))
    else if exists k :: 0 <= k < |d.listing.value| && d.listing.value[k].ListFailure? then Failed(ListingFailed(d.path))
    else ImagesOutcome(d.path, SortedImages(d.listing.value), deflate, inflate)
  }

  /** The pass once the images are sorted. */
  function ImagesOutcome(path: string, images: seq<FileEntry>, deflate: Bytes -> Bytes, inflate: Bytes -> Bytes): DirOutcome {
    if images == [] then NoImages
    else match EncodeAll(images, deflate)
      case Failure(e) => Failed(e)
      case Success(results) => Written(Cbz(path + ".cbz", Assembled(results, inflate)))
  }

  /** The body of the directory loop (lines 33-162). */
  method ProcessDirectory(d: Dir, deflate: Bytes -> Bytes, inflate: Bytes -> Bytes) returns (o: DirOutcome)
    ensures o == DirectoryOutcome(d, deflate, inflate)
  {
    if d.listing.None? {
      return Failed(ReadDirFailed(d.path));
    }
    var scanned := ScanDirectory(d.listing.value);
    if scanned.None? {
      return Failed(ListingFailed(d.path));
    }
    var images := SortImages(scanned.value, EntryName);
    if images == [] {
      return NoImages;
    }
    var encoded := EncodeAll(images, deflate);
    if encoded.Failure? {
      return Failed(encoded.error);
    }
    var zip := WriteArchive(encoded.value, inflate);
    return Written(Cbz(d.path + ".cbz", zip.entries));
  }

  datatype RunEnd =
    | Finished
    | EmptyDirectory(at: nat)
    | Aborted(at: nat, error: Error)

  /** What each directory argument's pass yields, in argument order. */
  ghost function Outcomes(dirs: seq<Dir>, deflate: Bytes -> Bytes, inflate: Bytes -> Bytes): (os: seq<DirOutcome>)
    ensures |os| == |dirs|
  {
    seq(|dirs|, k requires 0 <= k < |dirs| => DirectoryOutcome(dirs[k], deflate, inflate))
  }

  /** `main`'s loop over the passes from `k` on: the archives written, and
      how the loop ended. An error ends the run, and so does a directory
      without images (`return Ok(())`). */
  function RunOf(os: seq<DirOutcome>, k: nat): (seq<Cbz>, RunEnd)
    decreases |os| - k
  {
    if k >= |os| then ([], Finished)
    else match os[k]
      case Failed(e) => ([], Aborted(k, e))
      case NoImages => ([], EmptyDirectory(k))
      case Written(cbz) =>
        var rest := RunOf(os, k + 1);
        ([cbz] + rest.0, rest.1)
  }

  /** The loop as written. */
  method Run(dirs: seq<Dir>, deflate: Bytes -> Bytes, inflate: Bytes -> Bytes) returns (written: seq<Cbz>, end: RunEnd)
    ensures (written, end) == RunOf(Outcomes(dirs, deflate, inflate), 0)
  {
    ghost var os := Outcomes(dirs, deflate, inflate);
    written := [];
    var k := 0;
    while k < |dirs|
      invariant k <= |dirs|
      invariant written + RunOf(os, k).0 == RunOf(os, 0).0
      invariant RunOf(os, k).1 == RunOf(os, 0).1
    {
      var o := ProcessDirectory(dirs[k], deflate, inflate);
      assert o == os[k];
      if o.Failed? {
        assert written + [] == written;
        return written, Aborted(k, o.error);
      } else if o.NoImages? {
        assert written + [] == written;
        return written, EmptyDirectory(k);
      }
      ghost var rest := RunOf(os, k + 1);
      assert written + ([o.archive] + rest.0) == (written + [o.archive]) + rest.0;
      written := written + [o.archive];
      k := k + 1;
    }
    assert written + [] == written;
    return written, Finished;
  }

  /** The run writes one archive per pass, in argument order, up to the
      first pass that fails or finds no images, and then stops. */
  lemma {:induction false} RunStopsAtFirstBreak(os: seq<DirOutcome>, k: nat)
    requires k <= |os|
    ensures var (written, end) := RunOf(os, k);
      && k + |written| <= |os|
      && (forall j :: 0 <= j < |written| ==> os[k + j] == Written(written[j]))
      && (end.Finished? <==> k + |written| == |os|)
      && (end.EmptyDirectory? ==> end.at == k + |written| && os[end.at] == NoImages)
      && (end.Aborted? ==> end.at == k + |written| && os[end.at] == Failed(end.error))
    decreases |os| - k
  {
    if k < |os| && os[k].Written? {
      RunStopsAtFirstBreak(os, k + 1);
      var rest := RunOf(os, k + 1);
      var written := [os[k].archive] + rest.0;
      forall j | 0 < j < |written|
        ensures os[k + j] == Written(written[j])
      {
        assert written[j] == rest.0[j - 1] && k + j == (k + 1) + (j - 1);
      }
    }
  }

  // What the written archive holds.

  /** One entry per image, in sorted order: entry `k` is named for index `k`,
      so the names are distinct and sort as text in index order; an entry is
      compressed iff trial compression made it strictly smaller. */
  lemma ArchiveEntries(images: seq<FileEntry>, deflate: Bytes -> Bytes, inflate: Bytes -> Bytes)
    requires EncodeAll(images, deflate).Success?
    ensures |Assembled(EncodeAll(images, deflate).value, inflate)| == |images|
    ensures forall k :: 0 <= k < |images| ==>
      && Extension(images[k].name).Some? && images[k].content.Some?
      && Assembled(EncodeAll(images, deflate).value, inflate)[k].name
         == MemberName(k, |images|, Extension(images[k].name).value)
      && (Assembled(EncodeAll(images, deflate).value, inflate)[k].compression == Deflated
          <==> |deflate(images[k].content.value)| < |images[k].content.value|)
    ensures forall i, j :: 0 <= i < j < |images| ==>
      LexCompare(Assembled(EncodeAll(images, deflate).value, inflate)[i].name,
                 Assembled(EncodeAll(images, deflate).value, inflate)[j].name) == Less
  {
    var ts := Tasks(images, deflate);
    CollectResults(ts, 0);
    var results := EncodeAll(images, deflate).value;
    var es := Assembled(results, inflate);
    forall k | 0 <= k < |images|
      ensures Extension(images[k].name).Some? && images[k].content.Some?
      ensures es[k].name == MemberName(k, |images|, Extension(images[k].name).value)
      ensures es[k].compression == Deflated <==> |deflate(images[k].content.value)| < |images[k].content.value|
    {
      assert ts[k] == EncodeImage(k, |images|, images[k], deflate);
      assert es[k] == FinalEntry(ts[k].value, inflate);
      FinalEntryOfImage(k, |images|, images[k], deflate, inflate);
    }
    forall i, j | 0 <= i < j < |images|
      ensures LexCompare(es[i].name, es[j].name) == Less
    {
      MemberNamesOrdered(i, j, |images|, Extension(images[i].name).value, Extension(images[j].name).value);
    }
  }

  /** Every entry reads back as the original file, stored or compressed, and
      each payload is the smaller of the trial output and the original: never
      larger than the file. */
  lemma ArchiveContents(images: seq<FileEntry>, deflate: Bytes -> Bytes, inflate: Bytes -> Bytes)
    requires Inverse(deflate, inflate)
    requires EncodeAll(images, deflate).Success?
    ensures |Assembled(EncodeAll(images, deflate).value, inflate)| == |images|
    ensures forall k :: 0 <= k < |images| ==>
      && images[k].content.Some?
      && Decompress(Assembled(EncodeAll(images, deflate).value, inflate)[k], inflate) == images[k].content.value
      && |Assembled(EncodeAll(images, deflate).value, inflate)[k].payload|
         == Min(|deflate(images[k].content.value)|, |images[k].content.value|)
  {
    var ts := Tasks(images, deflate);
    CollectResults(ts, 0);
    var results := EncodeAll(images, deflate).value;
    var es := Assembled(results, inflate);
    forall k | 0 <= k < |images|
      ensures images[k].content.Some?
      ensures Decompress(es[k], inflate) == images[k].content.value
      ensures |es[k].payload| == Min(|deflate(images[k].content.value)|, |images[k].content.value|)
    {
      assert ts[k] == EncodeImage(k, |images|, images[k], deflate);
      assert es[k] == FinalEntry(ts[k].value, inflate);
      FinalEntryOfImage(k, |images|, images[k], deflate, inflate);
      assert inflate(deflate(images[k].content.value)) == images[k].content.value;
    }
  }

  /** What one image becomes in the archive: an entry under its member
      name, deflated iff trial compression made it strictly smaller; when
      `inflate` undoes `deflate` on the file, the entry reads back as the
      file and its payload is the smaller of the trial output and the file. */
  lemma FinalEntryOfImage(i: nat, count: nat, image: FileEntry, deflate: Bytes -> Bytes, inflate: Bytes -> Bytes)
    requires EncodeImage(i, count, image, deflate).Success?
    ensures Extension(image.name).Some? && image.content.Some?
    ensures var data := image.content.value;
      var e := FinalEntry(EncodeImage(i, count, image, deflate).value, inflate);
      && e.name == MemberName(i, count, Extension(image.name).value)
      && (e.compression == Deflated <==> |deflate(data)| < |data|)
      && (inflate(deflate(data)) == data ==>
            Decompress(e, inflate) == data && |e.payload| == Min(|deflate(data)|, |data|))
  {
    var ext := Extension(image.name).value;
    var data := image.content.value;
    var x := EncodeImage(i, count, image, deflate).value;
    assert x == Encoded(Entry(MemberName(i, count, ext), Deflated, deflate(data)), |data|, |deflate(data)| < |data|);
    if x.compressed {
      assert FinalEntry(x, inflate) == x.trial;
    } else {
      assert FinalEntry(x, inflate) == Entry(x.trial.name, Stored, inflate(deflate(data)));
    }
  }

  /** A directory that yields an archive: it is `<dir>.cbz`; its entries are
      the directory's images in a permutation of listing order (with the
      stand-in sort, one whose neighbours are in comparator order), entry `k`
      named for index `k` with the image's extension, and each reads back as
      its image's bytes. */
  lemma WrittenArchive(d: Dir, deflate: Bytes -> Bytes, inflate: Bytes -> Bytes)
    requires Inverse(deflate, inflate)
    requires DirectoryOutcome(d, deflate, inflate).Written?
    ensures d.listing.Some? && forall k :: 0 <= k < |d.listing.value| ==> d.listing.value[k].Listed?
    ensures DirectoryOutcome(d, deflate, inflate).archive.path == d.path + ".cbz"
    ensures var images := SortedImages(d.listing.value);
      var es := DirectoryOutcome(d, deflate, inflate).archive.entries;
      && multiset(images) == multiset(Kept(Entries(d.listing.value)))
      && AdjacentOrdered(images, EntryName)
      && |es| == |images| > 0
      && forall k :: 0 <= k < |images| ==>
           && Extension(images[k].name).Some? && images[k].content.Some?
           && es[k].name == MemberName(k, |images|, Extension(images[k].name).value)
           && Decompress(es[k], inflate) == images[k].content.value
  {
    var images := SortedImages(d.listing.value);
    assert EncodeAll(images, deflate).Success?;
    ArchiveEntries(images, deflate, inflate);
    ArchiveContents(images, deflate, inflate);
  }
}
