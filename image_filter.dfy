/** Which directory entries the Rust tool takes as images (src/main.rs, the
    `EXTENSIONS` table and the `read_dir` loop): a non-directory whose
    lower-cased extension is found by binary search in the sorted table. */
module ImageFilter {
  import opened Text

  /** `EXTENSIONS`, in the order the source lists it. */
  const Extensions: seq<string> := ["avif", "gif", "jpeg", "jpg", "png", "webp"]

  ghost predicate StrictlySorted(t: seq<string>) {
    forall i, j :: 0 <= i < j < |t| ==> LexCompare(t[i], t[j]) == Less
  }

  lemma {:induction false} NeighboursSorted(t: seq<string>)
    requires forall k :: 0 <= k < |t| - 1 ==> LexCompare(t[k], t[k + 1]) == Less
    ensures StrictlySorted(t)
    decreases |t|
  {
    if |t| > 1 {
      var t' := t[1..];
      assert forall k :: 0 <= k < |t'| - 1 ==> LexCompare(t'[k], t'[k + 1]) == Less by {
        forall k | 0 <= k < |t'| - 1 ensures LexCompare(t'[k], t'[k + 1]) == Less {
          assert t'[k] == t[k + 1] && t'[k + 1] == t[k + 2];
        }
      }
      NeighboursSorted(t');
      forall i, j | 0 <= i < j < |t| ensures LexCompare(t[i], t[j]) == Less {
        if i > 0 {
          assert t[i] == t'[i - 1] && t[j] == t'[j - 1];
        } else if j > 1 {
          assert t[1] == t'[0] && t[j] == t'[j - 1];
          LexTransitive(t[0], t[1], t[j]);
        }
      }
    }
  }

  /** The table is strictly sorted, which `binary_search` relies on. */
  lemma ExtensionsSorted()
    ensures StrictlySorted(Extensions)
  {
    assert LexCompare("avif", "gif") == Less;
    assert LexCompare("gif", "jpeg") == Less;
    assert LexCompare("jpeg", "jpg") == Less by {
      assert "jpeg" == "jp" + "eg" && "jpg" == "jp" + "g";
      LexCommonPrefix("jp", "eg", "g");
    }
    assert LexCompare("jpg", "png") == Less;
    assert LexCompare("png", "webp") == Less;
    NeighboursSorted(Extensions);
  }

  /** `slice::binary_search`: the index of `key` if it is in the table. */
  method BinarySearch(table: seq<string>, key: string) returns (r: Option<nat>)
    requires StrictlySorted(table)
    ensures r.Some? ==> r.value < |table| && table[r.value] == key
    ensures r.None? ==> key !in table
  {
    var lo, hi := 0, |table|;
    while lo < hi
      invariant 0 <= lo <= hi <= |table|
      invariant forall j :: 0 <= j < lo ==> LexCompare(table[j], key) == Less
      invariant forall j :: hi <= j < |table| ==> LexCompare(key, table[j]) == Less
    {
      var mid := (lo + hi) / 2;
      var c := LexCompare(table[mid], key);
      if c == Equal {
        return Some(mid);
      } else if c == Less {
        forall j | 0 <= j <= mid ensures LexCompare(table[j], key) == Less {
          if j < mid {
            LexTransitive(table[j], table[mid], key);
          }
        }
        lo := mid + 1;
      } else {
        LexAntisymmetric(table[mid], key);
        forall j | mid <= j < |table| ensures LexCompare(key, table[j]) == Less {
          if j > mid {
            LexTransitive(key, table[mid], table[j]);
          }
        }
        hi := mid;
      }
    }
    return None;
  }

  /** The index of the last `.` in `s`, if any. */
  function LastDot(s: string): (r: Option<nat>)
    ensures r.None? ==> forall j :: 0 <= j < |s| ==> s[j] != '.'
    ensures r.Some? ==> r.value < |s| && s[r.value] == '.'
    ensures r.Some? ==> forall j :: r.value < j < |s| ==> s[j] != '.'
    decreases |s|
  {
    if s == [] then None
    else if s[|s| - 1] == '.' then Some(|s| - 1)
    else LastDot(s[..|s| - 1])
  }

  lemma LastDotIs(s: string, k: nat)
    requires k < |s| && s[k] == '.'
    requires forall j :: k < j < |s| ==> s[j] != '.'
    ensures LastDot(s) == Some(k)
  {
    var r := LastDot(s);
    assert r.Some?;
  }

  /** `Path::extension` of a file name: the text after the last dot, unless
      there is no dot, the only dot starts the name, or the name is `..`. */
  function Extension(name: string): (r: Option<string>)
    ensures r.Some? ==> exists k :: 0 < k < |name| && name[k] == '.' && r.value == name[k + 1..]
    ensures r.Some? ==> '.' !in r.value
    ensures r.None? ==> name == ".." || forall k :: 0 < k < |name| ==> name[k] != '.'
  {
    if name == ".." then None
    else match LastDot(name)
      case None => None
      case Some(k) => if k == 0 then None else Some(name[k + 1..])
  }

  /** The filter on lines 38-44. */
  ghost predicate IsImageFile(name: string, isDir: bool) {
    !isDir && Extension(name).Some? && ToLower(Extension(name).value) in Extensions
  }

  /** The filter as written: lower-case the extension and search the table. */
  method KeepsPath(name: string, isDir: bool) returns (keep: bool)
    ensures keep <==> IsImageFile(name, isDir)
  {
    if isDir {
      return false;
    }
    var ext := Extension(name);
    if ext.None? {
      return false;
    }
    ExtensionsSorted();
    var found := BinarySearch(Extensions, ToLower(ext.value));
    keep := found.Some?;
  }

  /** `.JPEG` and `.Png` are kept; a name that is only `.png` has no extension,
      and `.tif` is not in the table. */
  lemma FilterExamples()
    ensures IsImageFile("scan.JPEG", false)
    ensures IsImageFile("a.b.Png", false)
    ensures !IsImageFile("scan.png", true)
    ensures !IsImageFile(".png", false)
    ensures !IsImageFile("scan.tif", false)
  {
    KeepsUpperJpeg();
    KeepsMixedPng();
    LastDotIs(".png", 0);
    RejectsTif();
  }

  lemma KeepsUpperJpeg()
    ensures IsImageFile("scan.JPEG", false)
  {
    LastDotIs("scan.JPEG", 4);
    assert ToLower("JPEG") == "jpeg";
  }

  lemma KeepsMixedPng()
    ensures IsImageFile("a.b.Png", false)
  {
    LastDotIs("a.b.Png", 3);
    assert ToLower("Png") == "png";
  }

  lemma RejectsTif()
    ensures !IsImageFile("scan.tif", false)
  {
    LastDotIs("scan.tif", 4);
    assert "scan.tif"[5..] == "tif";
    assert ToLower("tif") == "tif";
  }

  /** A directory entry: its file name, whether it is a directory, and its
      contents (none when the file cannot be opened or read). */
  datatype FileEntry = FileEntry(name: string, isDir: bool, content: Option<Bytes>)

  /** One item of the `read_dir` iterator, which may be an error. */
  datatype Listed = Listed(entry: FileEntry) | ListFailure

  /** The images among the entries, in listing order. */
  ghost function Kept(entries: seq<FileEntry>): seq<FileEntry>
    decreases |entries|
  {
    if entries == [] then []
    else
      var last := entries[|entries| - 1];
      Kept(entries[..|entries| - 1]) + (if IsImageFile(last.name, last.isDir) then [last] else [])
  }

  /** An entry is among the kept ones exactly when it is listed and is an image. */
  lemma {:induction false} KeptMembers(entries: seq<FileEntry>, e: FileEntry)
    ensures e in Kept(entries) <==> e in entries && IsImageFile(e.name, e.isDir)
    decreases |entries|
  {
    if entries != [] {
      var init := entries[..|entries| - 1];
      KeptMembers(init, e);
      assert entries == init + [entries[|entries| - 1]];
    }
  }

  function Entries(listing: seq<Listed>): (es: seq<FileEntry>)
    requires forall k :: 0 <= k < |listing| ==> listing[k].Listed?
    ensures |es| == |listing| && forall k :: 0 <= k < |listing| ==> es[k] == listing[k].entry
  {
    seq(|listing|, k requires 0 <= k < |listing| => listing[k].entry)
  }

  /** The scan loop (lines 35-48): any listing error aborts it, otherwise the
      images in listing order. */
  method ScanDirectory(listing: seq<Listed>) returns (r: Option<seq<FileEntry>>)
    ensures r.None? <==> exists k :: 0 <= k < |listing| && listing[k].ListFailure?
    ensures r.Some? ==> r.value == Kept(Entries(listing))
  {
    var images: seq<FileEntry> := [];
    var k := 0;
    while k < |listing|
      invariant 0 <= k <= |listing|
      invariant forall j :: 0 <= j < k ==> listing[j].Listed?
      invariant images == Kept(Entries(listing[..k]))
    {
      if listing[k].ListFailure? {
        return None;
      }
      var entry := listing[k].entry;
      var keep := KeepsPath(entry.name, entry.isDir);
      assert Entries(listing[..k + 1])[..k] == Entries(listing[..k]);
      if keep {
        images := images + [entry];
      }
      k := k + 1;
    }
    assert listing[..k] == listing;
    return Some(images);
  }
}
