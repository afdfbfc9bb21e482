# cba — comic-book archiver, modelled in Dafny

The repository has two tools that turn a folder of images into a comic-book
archive.

- **The Rust command-line tool** (`src/main.rs`) handles each directory
  argument in turn:
  - it keeps the non-directory entries whose lower-cased extension is in the
    sorted `EXTENSIONS` table, found by binary search;
  - it sorts them by comparing the digit runs of their file names as `u64`,
    falling back to comparing the paths;
  - it trial-compresses every image into a one-entry scratch zip and keeps
    the compressed form only when it is strictly smaller;
  - it writes `<dir>.cbz` with members named `<zero-padded index>.<EXT>`:
    compressed results are copied raw and the others are stored.
- **The JavaFX tool** (`MainController.java`) handles each directory in turn:
  - it lists the files that match `.+\.(jpe?g)$`;
  - it sorts them by the digit runs after the first;
  - it chooses 7z or zip by the total size;
  - it skips the directory if that archive already exists;
  - it renames the images to `0..n-1`, zero-padded, with `.jpg`;
  - it hands the renamed paths to an external `7z`.

The model follows the source in the form it has. Code made of expressions
becomes functions and lemmas. Each loop becomes a `method` with a `while` or
`for` loop, proved equal to a specification function. The zip writer, which
the Rust tool fills in place, becomes a class. Everything outside the
programs is a parameter:

- the compressor (`deflate`) and the reader of compressed data (`inflate`);
- the directory listings, with their read errors;
- the file system of the Java tool, a `map` from every existing path to its bytes;
- the set of moves that fail (`fails`) and the `7z` run (`sevenZip`);
- the Java list sort (`sort`).

Modules:

| file | module | content |
|---|---|---|
| text.dfy | Text | orderings, the path comparison, ASCII case mapping, digit runs |
| decimal.dfy | Decimal | decimal printing, digit strings, zero padding |
| image_filter.dfy | ImageFilter | `EXTENSIONS`, `Path::extension`, binary search, the directory scan |
| natural_order.dfy | NaturalOrder | the Rust `sort_by` comparator, and a sort standing in for the library's |
| member_naming.dfy | MemberNaming | `digit` and the member names |
| archive.dfy | CbzArchive | trial compression, the `ZipWriter` class, one directory, the run over all directories |
| java_order.dfy | JavaOrder | `toMatchResults` and `imagesCompare` |
| java_archiver.dfy | JavaArchiver | `extFilter`, the output type, the target names, the rename loop, the `compress` loop |

In these points the code does something other than one might expect, and the
model follows the code:

- `EXTENSIONS` holds six extensions, with no `tif` and no `heic`.
- The `"jpeg"` arm of the member extension is never taken. The extension is
  already upper-cased when it is compared, so a `.jpeg` image becomes
  `NN.JPEG`.
- The padding width is `digit(len)`, not `digit(len - 1)`. Ten images are
  named `00`..`09`.
- Neither tool renames in two phases.
- The Java width is `ceil(log10 n)`, so ten images get one digit.

## Model

| member | source | states |
|---|---|---|
| Text.LexCompare | src/main.rs:79 | `a.cmp(b)` on file names says Equal exactly for equal names |
| Text.LexAntisymmetric | src/main.rs:79 | swapping the names flips the path comparison |
| Text.LexTransitive | src/main.rs:79 | the path comparison is transitive |
| Text.UpperHasNoLowerLetter | src/main.rs:94-97 | an upper-cased extension holds no lower-case letter |
| Text.ToLower | src/main.rs:42 | `to_lowercase` on ASCII: same length, each character lower-cased |
| Text.ToUpper | src/main.rs:94 | `to_uppercase` on ASCII: same length, each character upper-cased, so no lower-case letter is left (UpperHasNoLowerLetter) |
| Text.DigitRuns | src/main.rs:54 | the matches of `(\d+)` are non-empty runs of digits |
| Text.DigitRunsSkipsNoDigits | src/main.rs:54 | a digit-free prefix contributes no match |
| Text.DigitRunsOfRun | src/main.rs:54 | a run followed by a non-digit is one whole match |
| Decimal.DecimalValue | src/main.rs:104 | `{}` of an index reads back as that index |
| Decimal.ToDecimal | src/main.rs:104 | `{}` of a number: a run of digits with no leading zero; DecimalValue reads it back and DecimalLength gives its length |
| Decimal.DecimalLength | src/main.rs:104 | `{}` of `n` has just as many digits as `n` needs |
| Decimal.ZeroPad | src/main/java/com/myhyuny/cba/MainController.java:164-166 | `%0wd`: the width is `max(w, length)`, all digits, and the value is the number |
| Decimal.PaddedOrder | src/main/java/com/myhyuny/cba/MainController.java:164-166 | numbers padded to one width compare as text in numeric order |
| ImageFilter.Extensions | src/main.rs:15 | the six extensions of `EXTENSIONS`, in the source's order: no `tif`, no `heic`; ExtensionsSorted shows the order is strictly ascending |
| ImageFilter.ExtensionsSorted | src/main.rs:15 | the `EXTENSIONS` table is strictly sorted, as `binary_search` needs |
| ImageFilter.BinarySearch | src/main.rs:43 | `binary_search` on a sorted table finds an index holding the key, or shows the key is absent |
| ImageFilter.LastDot | src/main.rs:40 | the index of the last `.` in a name, or none when there is no dot |
| ImageFilter.Extension | src/main.rs:40 | `Path::extension` is the text after a dot that is not the first character, and holds no dot; it is none only for `..` or a name with no dot after its first character |
| ImageFilter.KeepsPath | src/main.rs:38-44 | an entry is kept iff it is not a directory and its lower-cased extension is in the table |
| ImageFilter.IsImageFile | src/main.rs:38-44 | not a directory, with an extension whose lower-cased form is in the table; KeepsPath computes it |
| ImageFilter.Kept | src/main.rs:35-48 | the image files among the entries, in listing order; KeptMembers states which they are |
| ImageFilter.FilterExamples | src/main.rs:38-44 | `scan.JPEG` and `a.b.Png` are kept; a directory, `.png` and `scan.tif` are not |
| ImageFilter.KeptMembers | src/main.rs:35-48 | an entry is kept iff it is listed and is an image file |
| ImageFilter.ScanDirectory | src/main.rs:35-48 | any listing error stops the scan; otherwise the result is the images in listing order |
| NaturalOrder.ParseU64 | src/main.rs:66-67 | `parse::<u64>` succeeds iff the run's value is below 2^64, and then gives that value |
| NaturalOrder.CompareNames | src/main.rs:53-80 | the comparator loop computes the run-by-run comparison with its path fallback |
| NaturalOrder.NaturalCompare | src/main.rs:53-80 | the comparator on two file names: their digit runs compared pair by pair; NaturalEqualIff and NaturalAntisymmetric state its laws |
| NaturalOrder.CompareRuns | src/main.rs:56-79 | the first pair of runs whose `u64` values differ decides. When either side runs out of runs, or a run does not parse as `u64`, the paths decide |
| NaturalOrder.NaturalEqualIff | src/main.rs:53-80 | the comparator says Equal iff the names are identical |
| NaturalOrder.NaturalAntisymmetric | src/main.rs:53-80 | swapping the names flips the result |
| NaturalOrder.OverflowFallsBack | src/main.rs:65-79 | a first run beyond `u64` on either side sends the comparison to the path fallback |
| NaturalOrder.RunsOfNumberedName | src/main.rs:54 | a name with one number between digit-free text has that number as its only run |
| NaturalOrder.NumberedNamesOrder | src/main.rs:53-80 | names that differ only in one embedded number sort by that number |
| NaturalOrder.PageNumbersDecide | src/main.rs:53-80 | `page2.png` sorts before `page10.png` |
| NaturalOrder.PageNamesDecide | src/main.rs:53-80 | when the numbers tie (`page10.png` and `page10b.png`), the paths decide |
| NaturalOrder.NotTransitive | src/main.rs:53-80 | the comparator is not transitive: `c1.png` < `a2.png` < `b.png` < `c1.png` |
| NaturalOrder.Insert | src/main.rs:53 | inserting keeps the multiset and keeps neighbouring pairs in order |
| NaturalOrder.SortImages | src/main.rs:53 | the stand-in sort returns a permutation of the images, with every neighbouring pair in comparator order (a property of the stand-in, not of the library sort) |
| MemberNaming.CheckedILog10 | src/main.rs:169 | `checked_ilog10`: none for zero, otherwise `ilog10` |
| MemberNaming.ILog10 | src/main.rs:169 | `ilog10(i)` is the `d` with `10^d <= i < 10^(d+1)` |
| MemberNaming.Digit | src/main.rs:168-170 | `digit(i)` is `checked_ilog10(i) + 1`, and 1 for zero; it is at least 1, and DigitIsDecimalLength shows it is the printed length |
| MemberNaming.MemberExtension | src/main.rs:90-99 | the member extension is the upper-cased extension, then the `"jpeg"` arm; JpegArmNeverTaken shows that arm never applies |
| MemberNaming.SaturatingSub | src/main.rs:103 | `saturating_sub`: the difference, or zero when it would be negative; MemberNameShape uses it for the padding |
| MemberNaming.MemberName | src/main.rs:82-104 | the name is `padding[..names - digit(i)]`, then `i`, a dot and the member extension; MemberNameShape gives its shape |
| MemberNaming.DigitIsDecimalLength | src/main.rs:168-170 | `digit(i)` is the number of characters `{}` prints for `i` |
| MemberNaming.DigitMonotone | src/main.rs:168-170 | `digit` is monotone |
| MemberNaming.JpegArmNeverTaken | src/main.rs:93-98 | the `"jpeg" => "jpg"` arm never fires, so the extension is simply upper-cased |
| MemberNaming.MemberNameShape | src/main.rs:82-104 | the name of image `i < count` is `i` zero-padded to exactly `digit(count)` characters, a dot, then the upper-cased extension |
| MemberNaming.MemberNamesOrdered | src/main.rs:82-104 | member names sort as text in index order |
| MemberNaming.MemberNamesDistinct | src/main.rs:82-104 | no two images of a directory get the same member name |
| MemberNaming.TenImagesNames | src/main.rs:82-104 | with ten images, image 0 is `00.PNG` and image 9 (a `.jpeg`) is `09.JPEG` |
| CbzArchive.CollectResults | src/main.rs:141 | collecting the task results succeeds iff every task succeeds, and then holds each task's value at its index |
| CbzArchive.EncodeImage | src/main.rs:89-140 | one image's closure: an invalid extension, or an unreadable file, or the trial entry under its member name with the original size and the flag `compress < origins`; FinalEntryOfImage and EncodeImageFails state what it gives |
| CbzArchive.Tasks | src/main.rs:86-89 | as many closure results as images; CollectResults and EncodeAllFails, through EncodeImage, state what each one holds |
| CbzArchive.Collect | src/main.rs:141 | `collect::<Result<Vec<_>>>`: all values in order, or an error; CollectResults states when it succeeds and what it holds |
| CbzArchive.EncodeAll | src/main.rs:86-141 | the closures of all images, collected; EncodeAllFails states when it fails |
| CbzArchive.Decompress | src/main.rs:152-156 | reading an entry back: a stored payload as it is, a deflated one through `inflate` |
| CbzArchive.FinalEntry | src/main.rs:146-157 | a compressed result is its trial entry as it is; any other is read back and stored under the same name |
| CbzArchive.Assembled | src/main.rs:146-158 | the final entries in result order; ArchiveEntries and ArchiveContents state what they hold |
| CbzArchive.EntryName | src/main.rs:53 | the key the sort compares: the entry's file name |
| CbzArchive.SortedImages | src/main.rs:35-80 | the image entries of a readable listing, put in comparator order by the stand-in sort; WrittenArchive states it is a permutation of the images |
| CbzArchive.DirectoryOutcome | src/main.rs:35-160 | one pass: a read error, a listing error, then the outcome of the sorted images; ProcessDirectory computes it and WrittenArchive states what a written archive holds |
| CbzArchive.ImagesOutcome | src/main.rs:49-160 | no images stops the run; otherwise the first encoding error, or `<dir>.cbz` with the assembled entries |
| CbzArchive.Outcomes | src/main.rs:32-160 | the outcome of each directory argument, in argument order |
| CbzArchive.RunOf | src/main.rs:32-51 | the loop from argument `k` on: the archives written and how it ended; RunStopsAtFirstBreak states its shape |
| CbzArchive.EncodeImageFails | src/main.rs:89-139 | an image's task fails iff the image has no extension or cannot be read |
| CbzArchive.EncodeAllFails | src/main.rs:86-141 | encoding a directory fails iff some image has no extension or cannot be read |
| CbzArchive.FinalEntryOfImage | src/main.rs:89-157 | an image becomes one entry under its member name, deflated iff trial compression made it strictly smaller; given a faithful `inflate`, it reads back as the file, and its payload is the smaller of the trial output and the file |
| CbzArchive.ZipWriter.constructor | src/main.rs:144 | a new writer has no entries and is not finished |
| CbzArchive.ZipWriter.RawCopyFile | src/main.rs:148-150 | appends the entry as it is and changes nothing else |
| CbzArchive.ZipWriter.WriteStored | src/main.rs:151-156 | appends a Stored entry with the given name and bytes and changes nothing else |
| CbzArchive.ZipWriter.Finish | src/main.rs:160 | marks the archive finished and keeps its entries |
| CbzArchive.WriteArchive | src/main.rs:143-160 | the finished archive holds, in order, each compressed result copied raw and each other result read back and stored |
| CbzArchive.ProcessDirectory | src/main.rs:35-160 | one pass: a read error, or a listing error, or no images, or the first failing image's error, or `<dir>.cbz` holding the assembled entries |
| CbzArchive.ArchiveEntries | src/main.rs:86-160 | one entry per sorted image: entry `k` is named for index `k`, names sort in index order, and an entry is deflated iff that made it strictly smaller |
| CbzArchive.Inverse | src/main.rs:122-157 | what ArchiveContents assumes: `inflate` reads back everything `deflate` writes |
| CbzArchive.ArchiveContents | src/main.rs:122-157 | given a faithful `inflate`, every entry reads back as its image, and its payload is never larger than the file |
| CbzArchive.WrittenArchive | src/main.rs:35-160 | a written archive is `<dir>.cbz`; its entries are a permutation of the directory's images (neighbours in comparator order under the stand-in sort), each named for its index and reading back as that image |
| CbzArchive.Run | src/main.rs:32-166 | the loop over directory arguments computes the run over the per-directory outcomes |
| CbzArchive.RunStopsAtFirstBreak | src/main.rs:32-51 | one archive per directory, in argument order, until the first directory that fails or has no images; the run finishes iff every directory was written |
| JavaOrder.ParseLong | src/main/java/com/myhyuny/cba/MainController.java:243 | `Long.parseLong` succeeds iff the run's value is at most `Long.MAX_VALUE`, and then gives that value |
| JavaOrder.ToMatchResults | src/main/java/com/myhyuny/cba/MainController.java:250-257 | the loop returns every digit run except the first, in order, and nothing when there is no run |
| JavaOrder.MatchResults | src/main/java/com/myhyuny/cba/MainController.java:250-257 | the collected matches: the digit runs after the first; ToMatchResults computes them |
| JavaOrder.JavaCompare | src/main/java/com/myhyuny/cba/MainController.java:235-248 | lists of unequal length or an empty list compare the paths; otherwise the longs decide; JavaAntisymmetric, JavaEqualOnlyIfSame and JavaReflexive state its laws |
| JavaOrder.CompareLongs | src/main/java/com/myhyuny/cba/MainController.java:240-247 | the first unequal pair of longs decides, a run beyond `long` throws, and equal lists compare the paths |
| JavaOrder.ImagesCompare | src/main/java/com/myhyuny/cba/MainController.java:235-248 | the comparator computes the text fallback, or the first unequal pair of longs, or the exception |
| JavaOrder.JavaAntisymmetric | src/main/java/com/myhyuny/cba/MainController.java:235-248 | swapping the names flips the sign; the exception happens either way or neither |
| JavaOrder.JavaEqualOnlyIfSame | src/main/java/com/myhyuny/cba/MainController.java:235-248 | only identical names compare Equal |
| JavaOrder.JavaReflexive | src/main/java/com/myhyuny/cba/MainController.java:235-248 | a name compared with itself is Equal unless one of its collected runs is beyond `long`, which throws |
| JavaOrder.SingleNumberComparesAsText | src/main/java/com/myhyuny/cba/MainController.java:236-238 | names with one number each compare as paths, because that number is the dropped first match |
| JavaOrder.PlainNumbersSortAsText | src/main/java/com/myhyuny/cba/MainController.java:235-257 | `img2.jpg` sorts after `img10.jpg` in the Java tool but before it in the Rust tool |
| JavaOrder.SecondNumberDecides | src/main/java/com/myhyuny/cba/MainController.java:235-248 | with two numbers per name, the second decides when the values differ |
| JavaOrder.OverflowThrows | src/main/java/com/myhyuny/cba/MainController.java:243 | a first collected run beyond `long` throws `NumberFormatException` |
| JavaOrder.JavaNotTransitive | src/main/java/com/myhyuny/cba/MainController.java:235-257 | the comparator is not transitive: `c0_1.jpg` < `a0_9.jpg` < `b.jpg` < `c0_1.jpg` |
| JavaArchiver.LineTerminator | src/main/java/com/myhyuny/cba/MainController.java:225 | the characters Java's `.` does not match: `\n`, `\r`, `\u0085`, `\u2028` and `\u2029` |
| JavaArchiver.NoTerminators | src/main/java/com/myhyuny/cba/MainController.java:225 | a path with none of those characters; ExtFilterOrdinaryPath is stated for such paths |
| JavaArchiver.DollarAt | src/main/java/com/myhyuny/cba/MainController.java:225 | where `$` matches outside multi-line mode: at the end of the input, before a final line terminator, or before a final `\r\n` |
| JavaArchiver.JpegAt | src/main/java/com/myhyuny/cba/MainController.java:225 | the group `jpe?g` under `CASE_INSENSITIVE`: the text lower-cases to `jpg` or `jpeg` |
| JavaArchiver.MatchAt | src/main/java/com/myhyuny/cba/MainController.java:225 | one match of `.+\.(jpe?g)$`: a character other than a line terminator before the dot, then the dot, the group and a place where `$` matches |
| JavaArchiver.PatternFinds | src/main/java/com/myhyuny/cba/MainController.java:225-228 | `find()` succeeds: some position holds a match; ExtFilter is proved to compute it |
| JavaArchiver.EndsAt | src/main/java/com/myhyuny/cba/MainController.java:225-228 | a match that ends at a given position, with a three- or four-letter group; ExtFilter looks for one at the end of the path and one or two characters before it |
| JavaArchiver.ExtFilter | src/main/java/com/myhyuny/cba/MainController.java:225-229 | an entry is kept iff it is not a directory and the pattern finds a match in its path |
| JavaArchiver.ExtFilterOrdinaryPath | src/main/java/com/myhyuny/cba/MainController.java:225-229 | a path without line terminators is kept iff it ends in `.jpg` or `.jpeg`, in any case, with a character before the dot |
| JavaArchiver.FilterAcceptsUpperCase | src/main/java/com/myhyuny/cba/MainController.java:225 | `d/p.JPG` is kept: the match ignores case |
| JavaArchiver.FilterAcceptsHiddenFile | src/main/java/com/myhyuny/cba/MainController.java:225-228 | `d/.jpeg` is kept, because the whole path is matched |
| JavaArchiver.FilterRejects | src/main/java/com/myhyuny/cba/MainController.java:225-228 | `.jpg` alone, a directory, and `d/p.png` are not kept |
| JavaArchiver.AcceptedMembers | src/main/java/com/myhyuny/cba/MainController.java:138-139 | a file is accepted iff it is listed and the filter keeps it |
| JavaArchiver.Accepted | src/main/java/com/myhyuny/cba/MainController.java:138-139 | the listed files the filter keeps, in stream order, never more than were listed |
| JavaArchiver.TotalSize | src/main/java/com/myhyuny/cba/MainController.java:155 | the sum of the images' sizes |
| JavaArchiver.ListImages | src/main/java/com/myhyuny/cba/MainController.java:137-143 | nothing iff the stream cannot be opened; otherwise the accepted files in stream order |
| JavaArchiver.OutputType.Ext | src/main/java/com/myhyuny/cba/MainController.java:304-307 | the `ext` of each `Type`: `cb7` for 7z, `cbz` for zip |
| JavaArchiver.OutputType.Opts | src/main/java/com/myhyuny/cba/MainController.java:304-307 | the `opts` of each `Type`: `-t7z -ms=on` for 7z, `-tzip` for zip |
| JavaArchiver.ZipThreshold | src/main/java/com/myhyuny/cba/MainController.java:155 | the `16 * 1024 * 1024` bytes above which `Auto` becomes zip |
| JavaArchiver.ChooseOutputType | src/main/java/com/myhyuny/cba/MainController.java:152-159 | an explicit type wins; `Auto` becomes zip iff the total size is strictly above 16 MiB, and 7z otherwise |
| JavaArchiver.ArchivePath | src/main/java/com/myhyuny/cba/MainController.java:161 | `dir + "." + ext`; ArchivePathsDistinct shows the two types never share it and it is no file inside the directory |
| JavaArchiver.ArchivePathsDistinct | src/main/java/com/myhyuny/cba/MainController.java:161 | the archive paths of two types differ, and neither is a file inside the directory |
| JavaArchiver.Width | src/main/java/com/myhyuny/cba/MainController.java:163 | `ceil(log10 n)` for `n >= 2` is the `w` with `10^(w-1) < n <= 10^w` |
| JavaArchiver.TargetShape | src/main/java/com/myhyuny/cba/MainController.java:163-168 | target `i` is `dir/` + `i` padded to exactly the width + `.jpg` |
| JavaArchiver.TargetName | src/main/java/com/myhyuny/cba/MainController.java:164-166 | `String.format("%0<w>d.jpg", i)` |
| JavaArchiver.Resolve | src/main/java/com/myhyuny/cba/MainController.java:167 | `dir.resolve(name)` is the directory, a slash and the name; TargetShape states the resolved targets |
| JavaArchiver.Targets | src/main/java/com/myhyuny/cba/MainController.java:163-168 | one target per image, `dir.resolve` of its name; TargetShape and TargetsOrdered state what they are |
| JavaArchiver.TargetsOrdered | src/main/java/com/myhyuny/cba/MainController.java:163-168 | targets sort as text in index order, so they are distinct |
| JavaArchiver.TenTargets | src/main/java/com/myhyuny/cba/MainController.java:163-168 | ten images get width 1 and eleven get width 2; the tenth target is `d/9.jpg` |
| JavaArchiver.RenameFrom | src/main/java/com/myhyuny/cba/MainController.java:170-186 | the rename loop stops only at a position inside both lists; RenameStops, RenameMovesContents and RenameLeavesRest state what is moved and what is left |
| JavaArchiver.RenameLoop | src/main/java/com/myhyuny/cba/MainController.java:170-186 | the loop computes the file system and the stop reason of the rename specification |
| JavaArchiver.RenameKeepsOthers | src/main/java/com/myhyuny/cba/MainController.java:170-186 | a file that is not one of the images keeps its contents |
| JavaArchiver.RenameStops | src/main/java/com/myhyuny/cba/MainController.java:170-186 | the loop stops for the reason it reports, and every earlier source differed from its target |
| JavaArchiver.MoveFileCount | src/main/java/com/myhyuny/cba/MainController.java:181 | a move to a free path keeps the number of files |
| JavaArchiver.MoveFile | src/main/java/com/myhyuny/cba/MainController.java:181 | `Files.move` to a free path: the source is gone and the target holds its bytes |
| JavaArchiver.RenameKeepsCount | src/main/java/com/myhyuny/cba/MainController.java:170-186 | renaming never changes the number of files |
| JavaArchiver.RenameMovesContents | src/main/java/com/myhyuny/cba/MainController.java:170-186 | when the images are distinct existing files, each moved image's bytes end up at its target |
| JavaArchiver.RenameTargetStays | src/main/java/com/myhyuny/cba/MainController.java:170-186 | a later step never moves away or overwrites a file that no later source names |
| JavaArchiver.RenameLeavesRest | src/main/java/com/myhyuny/cba/MainController.java:170-186 | after a stop, every image from the stop position on is still at its source with its bytes: the loop moves nothing past the position where it breaks |
| JavaArchiver.SevenZipCommand | src/main/java/com/myhyuny/cba/MainController.java:188-195 | the 7z command line; SevenZipCommandShape states its parts and their order |
| JavaArchiver.SevenZipCommandShape | src/main/java/com/myhyuny/cba/MainController.java:188-195 | the command is `7z a -mx=9 -bb3`, then the type's switches, then the archive, then every target in order |
| JavaArchiver.ProcessDirectory | src/main/java/com/myhyuny/cba/MainController.java:133-212 | one pass of the loop computes the step specification: a read error, an empty directory, a skip, or the renames followed by the 7z run |
| JavaArchiver.DirStep | src/main/java/com/myhyuny/cba/MainController.java:137-150 | a listing that cannot be opened or has no image stops the loop; otherwise the pass on the sorted images |
| JavaArchiver.SortedStep | src/main/java/com/myhyuny/cba/MainController.java:152-168 | the output type comes from the choice and the total size. An existing archive skips the directory, and one image stops the loop. Otherwise the pass renames and runs 7z |
| JavaArchiver.ArchiveStep | src/main/java/com/myhyuny/cba/MainController.java:163-212 | rename the images to their targets and run 7z on the renamed file system. A failed run stops the loop; a successful one adds the archive |
| JavaArchiver.CompressFrom | src/main/java/com/myhyuny/cba/MainController.java:128-215 | the loop from directory `k` on: the file system, the 7z commands issued, and where it stopped |
| JavaArchiver.Compress | src/main/java/com/myhyuny/cba/MainController.java:128-215 | the directory loop computes the run: `continue` on an existing archive, `break` on a read error, an empty directory or a failed 7z |
| JavaArchiver.BreakIgnoresLaterDirectories | src/main/java/com/myhyuny/cba/MainController.java:131-215 | after a `break`, directories later in the list change nothing |
| JavaArchiver.DirStepKeepsOthers | src/main/java/com/myhyuny/cba/MainController.java:150-212 | when the sort permutes the images, a pass never overwrites a file that is not one of the directory's images: other files of the directory, and files elsewhere, keep their contents |
| JavaArchiver.ArchiveStepKeepsOthers | src/main/java/com/myhyuny/cba/MainController.java:170-212 | renaming and running 7z keep every file that is not an image or the archive |
| JavaArchiver.DirStepCommand | src/main/java/com/myhyuny/cba/MainController.java:145-195 | a pass that runs 7z had at least two images and no archive yet; its command names that archive and lists every target, even when the renames stopped early |
| JavaArchiver.DirStepSkips | src/main/java/com/myhyuny/cba/MainController.java:161 | when the archive of the chosen type exists, the pass leaves the file system as it is, runs no 7z and does not break |
| JavaArchiver.CompressFromSkips | src/main/java/com/myhyuny/cba/MainController.java:128-215 | after such a `continue`, the loop goes on at the next directory with the same file system and commands |

## Left out

- Console output, the JavaFX interface, progress messages and `clap` argument parsing are not modelled. They only display things.
- Finding `7z` on the machine is not modelled. The command string is a parameter.
- The `7z` process and its output are the function `sevenZip`. It sees the command and the file system after the renames, and gives the written archive or a failure.
- The compressor is the function `deflate`, and reading compressed data is `inflate`. Zopfli, the compression level and the zip byte format are not modelled.
- Scratch files, `File::create` and the zip library's own I/O errors are not modelled. `tempfile`, writing and reading back are assumed to succeed.
- The Java `directories`/`getChildes` walk is not modelled. The directory list is an input.
- `Files.size`'s `long` sum is not modelled. The total size is an unbounded `nat`, and an unreadable size is 0.
- CbzArchive.Collect: rayon runs the tasks in parallel and may report the error of any failing image. The model reports the failing image with the lowest index. Success, and the results when every task succeeds, do not depend on this.
- NaturalOrder.SortImages: the library `sort_by` is not reproduced. Its comparator is not a total order (see NotTransitive). With such a comparator, Rust's sort may panic, and otherwise it promises only a permutation, in an unspecified order. The model stands an insertion sort in its place. The stand-in always returns, and its neighbour order (`AdjacentOrdered`, also in WrittenArchive) holds for the stand-in, not for the tool. The panic path is not modelled.
- JavaArchiver.Compress: the Java list sort is the parameter `sort`. Two exceptions thrown during the sort are not modelled. The first is a `NumberFormatException` from the comparator, and JavaOrder states when it is thrown. The second is the `IllegalArgumentException` ("Comparison method violates its general contract") that `List.sort` may throw, because the comparator is not transitive (JavaNotTransitive).
- JavaArchiver.DirStep: a directory with one image gives the format `%00d.jpg`. Java's formatter rejects that format and the pass throws. The model stops with `SingleImage` and does not go further.
- Stream iteration errors (`DirectoryIteratorException`) on the Java side are not modelled.
- A Java move that fails is modelled as a source that is missing or is in `fails`.
- Text.ToLower: only ASCII letters are mapped, as Java's `CASE_INSENSITIVE` does. Rust's `to_lowercase` and `to_uppercase` also map other Unicode letters, which the model does not.
- Text.DigitRuns: only ASCII digits are digits. Rust's `\d` also matches other Unicode decimal digits.
- Text.LexCompare: paths compare as the character sequences of their file names. `Path::cmp` on components and Java's byte-wise `UnixPath.compareTo` are not modelled; both tools compare paths within one directory.
- A file name that is not valid UTF-8 (the `invalid filename` error of the Rust tool) is not modelled. Names are strings.
- JavaArchiver.TargetName: `String.format` uses the default locale, and under a locale whose digits are not Latin (for example `fa`), `%d` prints other digits. The model always writes the ASCII digits `0`-`9`.
- JavaArchiver.RenameFrom: paths are exact, case-sensitive strings, and one path names one file. On a case-insensitive file system, such as the default one on macOS where the tool looks for `7z`, `exists` also matches a name that differs only in case. On Windows, `Path.equals` does too. There Java stops with "is exists." where the model moves the files. RenameMovesContents and RenameLeavesRest hold for the case-sensitive file system only.
