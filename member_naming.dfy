/** Archive member names of the Rust tool (src/main.rs): `digit` and the
    `<zero-padded index>.<EXTENSION>` name each image gets. */
module MemberNaming {
  import opened Text
  import opened Decimal

  /** `usize::ilog10`: the largest `d` with `10^d <= i`. */
  function ILog10(i: nat): (d: nat)
    requires i >= 1
    ensures Pow10(d) <= i < Pow10(d + 1)
    decreases i
  {
    if i < 10 then 0
    else
      var d := ILog10(i / 10);
      TenfoldBounds(i, Pow10(d), Pow10(d + 1));
      d + 1
  }

  lemma TenfoldBounds(i: nat, lo: nat, hi: nat)
    requires lo <= i / 10 < hi
    ensures 10 * lo <= i < 10 * hi
  {
  }

  /** `usize::checked_ilog10`: none for zero. */
  function CheckedILog10(i: nat): Option<nat> {
    if i == 0 then None else Some(ILog10(i))
  }

  /** `digit(i)`: `checked_ilog10` plus one, and 1 for zero. */
  function Digit(i: nat): (d: nat)
    ensures d >= 1
  {
    match CheckedILog10(i)
    case None => 1
    case Some(x) => x + 1
  }

  /** `digit(i)` is the number of characters `{}` prints for `i`. */
  lemma {:induction false} DigitIsDecimalLength(i: nat)
    ensures Digit(i) == |ToDecimal(i)|
    decreases i
  {
    if i >= 10 {
      DigitIsDecimalLength(i / 10);
    }
  }

  lemma {:induction false} DigitMonotone(i: nat, j: nat)
    requires i <= j
    ensures Digit(i) <= Digit(j)
    decreases j
  {
    if j >= 10 && i >= 10 {
      DigitMonotone(i / 10, j / 10);
    } else if j >= 10 {
      DigitIsDecimalLength(j);
    }
  }

  function SaturatingSub(a: nat, b: nat): nat {
    if a > b then a - b else 0
  }

  /** The member extension (lines 90-99): the source extension upper-cased,
      then a `"jpeg"` arm that compares against lower-case text. */
  function MemberExtension(ext: string): string {
    var e := ToUpper(ext);
    if e == "jpeg" then "jpg" else e
  }

  /** The `"jpeg"` arm never fires: `.jpeg` files keep `JPEG`. */
  lemma JpegArmNeverTaken(ext: string)
    ensures MemberExtension(ext) == ToUpper(ext)
  {
    if ToUpper(ext) == "jpeg" {
      UpperHasNoLowerLetter(ext, 0);
      assert false;
    }
  }

  /** The name of the member for the image at sorted index `i` of `count`
      images (lines 82-84 and 102-104). The slice `padding[..paddingCount]`
      is in bounds because `digit` is never below 1. */
  function MemberName(i: nat, count: nat, ext: string): string {
    var names := Digit(count);
    var maxPadding := if names > 0 then names - 1 else 0;
    var padding := Zeros(maxPadding);
    var paddingCount := SaturatingSub(names, Digit(i));
    padding[..paddingCount] + ToDecimal(i) + "." + MemberExtension(ext)
  }

  /** For an index below the count, the numeric part is `i` zero-padded to
      exactly `digit(count)` characters, then a dot and the upper-cased
      extension. */
  lemma MemberNameShape(i: nat, count: nat, ext: string)
    requires i < count
    ensures MemberName(i, count, ext) == ZeroPad(i, Digit(count)) + ("." + ToUpper(ext))
    ensures |ZeroPad(i, Digit(count))| == Digit(count)
    ensures Value(MemberName(i, count, ext)[..Digit(count)]) == i
    ensures MemberName(i, count, ext)[Digit(count)] == '.'
  {
    DigitMonotone(i, count);
    DigitIsDecimalLength(i);
    JpegArmNeverTaken(ext);
    var names := Digit(count);
    var pc := SaturatingSub(names, Digit(i));
    assert Zeros(names - 1)[..pc] == Zeros(pc);
    assert Zeros(pc) + ToDecimal(i) == ZeroPad(i, names);
    var name := MemberName(i, count, ext);
    assert name == ZeroPad(i, names) + ("." + ToUpper(ext));
    assert name[..names] == ZeroPad(i, names);
  }

  /** Member names sort as text in index order, whatever the extensions. */
  lemma MemberNamesOrdered(i: nat, j: nat, count: nat, e1: string, e2: string)
    requires i < j < count
    ensures LexCompare(MemberName(i, count, e1), MemberName(j, count, e2)) == Less
  {
    var w := Digit(count);
    MemberNameShape(i, count, e1);
    MemberNameShape(j, count, e2);
    DigitIsDecimalLength(i);
    DigitIsDecimalLength(j);
    DigitMonotone(i, count);
    DigitMonotone(j, count);
    var a, b := ZeroPad(i, w), ZeroPad(j, w);
    var x, y := "." + ToUpper(e1), "." + ToUpper(e2);
    PaddedOrder(i, j, w);
    assert MemberName(i, count, e1) == a + x;
    assert MemberName(j, count, e2) == b + y;
    LexHead(a, b, x, y);
  }

  /** Hence no two images of one directory get the same member name. */
  lemma MemberNamesDistinct(i: nat, j: nat, count: nat, e1: string, e2: string)
    requires i < count && j < count && i != j
    ensures MemberName(i, count, e1) != MemberName(j, count, e2)
  {
    if i < j {
      MemberNamesOrdered(i, j, count, e1, e2);
    } else {
      MemberNamesOrdered(j, i, count, e2, e1);
    }
  }

  /** Ten images are padded to `digit(10) = 2`, so they run `00` .. `09`;
      a `.jpeg` member stays `JPEG`. */
  lemma TenImagesNames()
    ensures MemberName(0, 10, "png") == "00.PNG"
    ensures MemberName(9, 10, "jpeg") == "09.JPEG"
  {
    FirstOfTen();
    LastOfTen();
  }

  lemma FirstOfTen()
    ensures MemberName(0, 10, "png") == "00.PNG"
  {
    MemberNameShape(0, 10, "png");
    DigitOfTen();
    assert ToUpper("png") == "PNG";
    assert ZeroPad(0, 2) == "00";
  }

  lemma LastOfTen()
    ensures MemberName(9, 10, "jpeg") == "09.JPEG"
  {
    MemberNameShape(9, 10, "jpeg");
    DigitOfTen();
    assert ToUpper("jpeg") == "JPEG";
    assert ZeroPad(9, 2) == "09";
  }

  lemma DigitOfTen()
    ensures Digit(10) == 2
  {
    assert ILog10(10) == 1;
  }
}
