/** Strings as both programs see them: ordering of file names, ASCII case
    mapping, and the decimal digit runs that the pattern `(\d+)` finds. */
module Text {

  datatype Option<T> = None | Some(value: T)

  /** File contents. */
  type Bytes = seq<bv8>

  /** The three-way result of a comparator (Rust's `Ordering`, the sign of a
      Java `compare`). */
  datatype Ordering = Less | Equal | Greater {
    function Flip(): Ordering {
      match this
      case Less => Greater
      case Equal => Equal
      case Greater => Less
    }
  }

  function IntCompare(x: int, y: int): (r: Ordering)
    ensures r == Less <==> x < y
    ensures r == Greater <==> x > y
    ensures r == Equal <==> x == y
  {
    if x < y then Less else if x > y then Greater else Equal
  }

  /** Lexicographic order of two names, character by character; a proper
      prefix comes first. This is how two file names of one directory compare
      as paths. */
  function LexCompare(a: string, b: string): (r: Ordering)
    ensures r == Equal <==> a == b
    decreases |a|
  {
    if a == [] then (if b == [] then Equal else Less)
    else if b == [] then Greater
    else if a[0] < b[0] then Less
    else if a[0] > b[0] then Greater
    else
      assert a == [a[0]] + a[1..] && b == [b[0]] + b[1..];
      LexCompare(a[1..], b[1..])
  }

  lemma {:induction false} LexAntisymmetric(a: string, b: string)
    ensures LexCompare(b, a) == LexCompare(a, b).Flip()
    decreases |a|
  {
    if a != [] && b != [] && a[0] == b[0] {
      LexAntisymmetric(a[1..], b[1..]);
    }
  }

  lemma {:induction false} LexTransitive(a: string, b: string, c: string)
    requires LexCompare(a, b) == Less && LexCompare(b, c) == Less
    ensures LexCompare(a, c) == Less
    decreases |a|
  {
    if a != [] && b != [] && c != [] && a[0] == b[0] && b[0] == c[0] {
      LexTransitive(a[1..], b[1..], c[1..]);
    }
  }

  /** Two names that differ within an equally long head compare as their heads. */
  lemma {:induction false} LexHead(a: string, b: string, x: string, y: string)
    requires |a| == |b| && a != b
    ensures LexCompare(a + x, b + y) == LexCompare(a, b)
    decreases |a|
  {
    assert a != [] && b != [];
    assert (a + x)[0] == a[0] && (b + y)[0] == b[0];
    if a[0] == b[0] {
      assert (a + x)[1..] == a[1..] + x && (b + y)[1..] == b[1..] + y;
      assert a[1..] != b[1..] by {
        assert a == [a[0]] + a[1..] && b == [b[0]] + b[1..];
      }
      LexHead(a[1..], b[1..], x, y);
    }
  }

  /** A common prefix does not change the comparison. */
  lemma {:induction false} LexCommonPrefix(p: string, x: string, y: string)
    ensures LexCompare(p + x, p + y) == LexCompare(x, y)
    decreases |p|
  {
    if p == [] {
      assert p + x == x && p + y == y;
    } else {
      assert (p + x)[0] == p[0] == (p + y)[0];
      assert (p + x)[1..] == p[1..] + x && (p + y)[1..] == p[1..] + y;
      LexCommonPrefix(p[1..], x, y);
    }
  }

  // ASCII case mapping. Rust's `to_lowercase`/`to_uppercase` map all of
  // Unicode; only the ASCII letters are modelled.

  function LowerChar(c: char): char {
    if 'A' <= c <= 'Z' then (c as int + 32) as char else c
  }

  function UpperChar(c: char): (u: char)
    ensures !('a' <= u <= 'z')
  {
    if 'a' <= c <= 'z' then (c as int - 32) as char else c
  }

  function ToLower(s: string): (r: string)
    ensures |r| == |s| && forall k :: 0 <= k < |s| ==> r[k] == LowerChar(s[k])
  {
    seq(|s|, k requires 0 <= k < |s| => LowerChar(s[k]))
  }

  function ToUpper(s: string): (r: string)
    ensures |r| == |s| && forall k :: 0 <= k < |s| ==> r[k] == UpperChar(s[k])
  {
    seq(|s|, k requires 0 <= k < |s| => UpperChar(s[k]))
  }

  /** An upper-cased string holds no lower-case ASCII letter. */
  lemma UpperHasNoLowerLetter(s: string, k: nat)
    requires k < |s|
    ensures !('a' <= ToUpper(s)[k] <= 'z')
  {
  }

  // Digit runs: what `(\d+)` finds, scanning left to right. Only the ASCII
  // digits 0-9 are digits here.

  predicate IsDigit(c: char) {
    '0' <= c <= '9'
  }

  predicate AllDigits(s: string) {
    forall k :: 0 <= k < |s| ==> IsDigit(s[k])
  }

  predicate NoDigits(s: string) {
    forall k :: 0 <= k < |s| ==> !IsDigit(s[k])
  }

  /** A run: a non-empty string of digits. */
  predicate IsRun(r: string) {
    |r| > 0 && AllDigits(r)
  }

  predicate AllRuns(rs: seq<string>) {
    forall k :: 0 <= k < |rs| ==> IsRun(rs[k])
  }

  /** The length of the longest all-digit prefix of `s`. */
  function LeadingDigits(s: string): (k: nat)
    ensures k <= |s| && AllDigits(s[..k])
    ensures k < |s| ==> !IsDigit(s[k])
  {
    if s == [] || !IsDigit(s[0]) then 0
    else
      var k' := LeadingDigits(s[1..]);
      assert s[..k' + 1] == [s[0]] + s[1..][..k'];
      k' + 1
  }

  /** The maximal digit runs of `s`, in the order a regex matcher finds them. */
  function DigitRuns(s: string): (runs: seq<string>)
    ensures AllRuns(runs)
    decreases |s|
  {
    if s == [] then []
    else if !IsDigit(s[0]) then DigitRuns(s[1..])
    else
      var k := LeadingDigits(s);
      [s[..k]] + DigitRuns(s[k..])
  }

  lemma {:induction false} DigitRunsOfNoDigits(s: string)
    requires NoDigits(s)
    ensures DigitRuns(s) == []
    decreases |s|
  {
    if s != [] {
      DigitRunsOfNoDigits(s[1..]);
    }
  }

  /** A digit-free prefix contributes no run. */
  lemma {:induction false} DigitRunsSkipsNoDigits(p: string, t: string)
    requires NoDigits(p)
    ensures DigitRuns(p + t) == DigitRuns(t)
    decreases |p|
  {
    if p != [] {
      assert (p + t)[0] == p[0] && (p + t)[1..] == p[1..] + t;
      DigitRunsSkipsNoDigits(p[1..], t);
    } else {
      assert p + t == t;
    }
  }

  /** A run followed by something that does not start with a digit is found whole. */
  lemma {:induction false} DigitRunsOfRun(d: string, t: string)
    requires IsRun(d)
    requires t == [] || !IsDigit(t[0])
    ensures DigitRuns(d + t) == [d] + DigitRuns(t)
  {
    LeadingDigitsOfRun(d, t);
    assert (d + t)[..|d|] == d && (d + t)[|d|..] == t;
  }

  lemma {:induction false} LeadingDigitsOfRun(d: string, t: string)
    requires AllDigits(d)
    requires t == [] || !IsDigit(t[0])
    ensures LeadingDigits(d + t) == |d|
    decreases |d|
  {
    if d != [] {
      assert (d + t)[1..] == d[1..] + t;
      LeadingDigitsOfRun(d[1..], t);
    }
  }

  function Min(x: nat, y: nat): (m: nat)
    ensures m <= x && m <= y && (m == x || m == y)
  {
    if x < y then x else y
  }
}
