/** The order the Rust tool sorts images in (src/main.rs, the `sort_by`
    closure): digit runs of the two file names compared pairwise as `u64`,
    the first unequal pair deciding; when either side runs out of runs or a
    run does not parse, the two paths compare as text. */
module NaturalOrder {
  import opened Text
  import opened Decimal

  /** Values of `u64` are below this bound. */
  const U64Bound: nat := 0x1_0000_0000_0000_0000

  /** `str::parse::<u64>` of a digit run: the value, or nothing on overflow. */
  function ParseU64(run: string): (r: Option<nat>)
    requires IsRun(run)
    ensures r.Some? <==> Value(run) < U64Bound
    ensures r.Some? ==> r.value == Value(run)
  {
    if Value(run) < U64Bound then Some(Value(run)) else None
  }

  /** The comparison from the current pair of runs on; `a` and `b` are the
      whole names, used by the fallback. */
  function CompareRuns(ar: seq<string>, br: seq<string>, a: string, b: string): Ordering
    requires AllRuns(ar) && AllRuns(br)
    decreases |ar|
  {
    if ar == [] || br == [] then LexCompare(a, b)
    else
      var an, bn := ParseU64(ar[0]), ParseU64(br[0]);
      if an.Some? && bn.Some? then
        if an.value != bn.value then IntCompare(an.value, bn.value)
        else CompareRuns(ar[1..], br[1..], a, b)
      else LexCompare(a, b)
  }

  /** The comparator of `images.sort_by`, on the file names of one directory. */
  function NaturalCompare(a: string, b: string): Ordering {
    CompareRuns(DigitRuns(a), DigitRuns(b), a, b)
  }

  /** The closure as written: step both run iterators until a pair is missing
      or unequal. */
  method CompareNames(a: string, b: string) returns (r: Ordering)
    ensures r == NaturalCompare(a, b)
  {
    var ai, bi := DigitRuns(a), DigitRuns(b);
    var k := 0;
    while true
      invariant k <= |ai| && k <= |bi|
      invariant CompareRuns(ai[k..], bi[k..], a, b) == NaturalCompare(a, b)
      decreases |ai| - k
    {
      var an := if k < |ai| then ParseU64(ai[k]) else None;
      var bn := if k < |bi| then ParseU64(bi[k]) else None;
      if an.Some? && bn.Some? {
        if an.value != bn.value {
          return IntCompare(an.value, bn.value);
        }
        assert ai[k..][1..] == ai[k + 1..] && bi[k..][1..] == bi[k + 1..];
        k := k + 1;
        continue;
      }
      break;
    }
    return LexCompare(a, b);
  }

  lemma {:induction false} CompareRunsEqual(ar: seq<string>, br: seq<string>, a: string, b: string)
    requires AllRuns(ar) && AllRuns(br)
    ensures CompareRuns(ar, br, a, b) == Equal ==> a == b
    decreases |ar|
  {
    if ar != [] && br != [] {
      CompareRunsEqual(ar[1..], br[1..], a, b);
    }
  }

  lemma {:induction false} CompareRunsReflexive(ar: seq<string>, a: string)
    requires AllRuns(ar)
    ensures CompareRuns(ar, ar, a, a) == Equal
    decreases |ar|
  {
    if ar != [] {
      CompareRunsReflexive(ar[1..], a);
    }
  }

  /** The comparator says Equal exactly for identical names; in particular it
      is reflexive. */
  lemma NaturalEqualIff(a: string, b: string)
    ensures NaturalCompare(a, b) == Equal <==> a == b
  {
    CompareRunsEqual(DigitRuns(a), DigitRuns(b), a, b);
    CompareRunsReflexive(DigitRuns(a), a);
  }

  lemma {:induction false} CompareRunsAntisymmetric(ar: seq<string>, br: seq<string>, a: string, b: string)
    requires AllRuns(ar) && AllRuns(br)
    ensures CompareRuns(br, ar, b, a) == CompareRuns(ar, br, a, b).Flip()
    decreases |ar|
  {
    LexAntisymmetric(a, b);
    if ar != [] && br != [] {
      CompareRunsAntisymmetric(ar[1..], br[1..], a, b);
    }
  }

  /** Swapping the arguments flips the result. */
  lemma NaturalAntisymmetric(a: string, b: string)
    ensures NaturalCompare(b, a) == NaturalCompare(a, b).Flip()
  {
    CompareRunsAntisymmetric(DigitRuns(a), DigitRuns(b), a, b);
  }

  /** A run that overflows `u64` at the head of either name sends the
      comparison to the path fallback. */
  lemma OverflowFallsBack(a: string, b: string)
    requires DigitRuns(a) != [] && DigitRuns(b) != []
    requires Value(DigitRuns(a)[0]) >= U64Bound || Value(DigitRuns(b)[0]) >= U64Bound
    ensures NaturalCompare(a, b) == LexCompare(a, b)
  {
  }

  /** The runs of `stem + digits + suffix` when neither stem nor suffix holds
      a digit. */
  lemma RunsOfNumberedName(p: string, d: string, s: string)
    requires NoDigits(p) && IsRun(d) && NoDigits(s)
    ensures DigitRuns(p + d + s) == [d]
  {
    assert p + d + s == p + (d + s);
    DigitRunsSkipsNoDigits(p, d + s);
    assert s == [] || !IsDigit(s[0]);
    DigitRunsOfRun(d, s);
    DigitRunsOfNoDigits(s);
  }

  /** Names that differ only in one embedded number sort by that number:
      `img2.png` before `img10.png`. */
  lemma NumberedNamesOrder(p: string, s: string, i: nat, j: nat)
    requires NoDigits(p) && NoDigits(s)
    requires i < U64Bound && j < U64Bound && i != j
    ensures NaturalCompare(p + ToDecimal(i) + s, p + ToDecimal(j) + s) == IntCompare(i, j)
  {
    RunsOfNumberedName(p, ToDecimal(i), s);
    RunsOfNumberedName(p, ToDecimal(j), s);
    DecimalValue(i);
    DecimalValue(j);
  }

  /** `page2.png` < `page10.png`: the numbers decide. */
  lemma PageNumbersDecide()
    ensures NaturalCompare("page2.png", "page10.png") == Less
  {
    RunsOfPage2();
    RunsOfPage10();
    RunsTwoBeforeTen("page2.png", "page10.png");
  }

  /** The runs `2` and `10` decide, whatever the names. */
  lemma RunsTwoBeforeTen(a: string, b: string)
    ensures CompareRuns(["2"], ["10"], a, b) == Less
  {
    ValueOfTen();
    assert ["2"][0] == "2" && ["10"][0] == "10";
    assert Value("2") == 2;
  }

  /** `page10.png` < `page10b.png`: the numbers tie and the names decide. */
  lemma PageNamesDecide()
    ensures NaturalCompare("page10.png", "page10b.png") == Less
  {
    RunsOfPage10();
    RunsOfPage10b();
    ValueOfTen();
    Page10Lex();
    assert CompareRuns(["10"], ["10"], "page10.png", "page10b.png") == Less;
  }

  lemma RunsOfPage2()
    ensures DigitRuns("page2.png") == ["2"]
  {
    assert NoDigits("page") && NoDigits(".png");
    RunsOfNumberedName("page", "2", ".png");
    assert "page2.png" == "page" + "2" + ".png";
  }

  lemma RunsOfPage10()
    ensures DigitRuns("page10.png") == ["10"]
  {
    assert NoDigits("page") && NoDigits(".png");
    RunsOfNumberedName("page", "10", ".png");
    assert "page10.png" == "page" + "10" + ".png";
  }

  lemma RunsOfPage10b()
    ensures DigitRuns("page10b.png") == ["10"]
  {
    assert NoDigits("page") && NoDigits("b.png");
    RunsOfNumberedName("page", "10", "b.png");
    assert "page10b.png" == "page" + "10" + "b.png";
  }

  lemma Page10Lex()
    ensures LexCompare("page10.png", "page10b.png") == Less
  {
    assert "page10.png" == "page10" + ".png" && "page10b.png" == "page10" + "b.png";
    LexCommonPrefix("page10", ".png", "b.png");
  }

  lemma ValueOfTen()
    ensures Value("10") == 10
  {
    assert "10"[..1] == "1";
  }

  /** The comparator is not transitive: `c1.png` < `a2.png` by number,
      `a2.png` < `b.png` and `b.png` < `c1.png` by name. */
  lemma NotTransitive()
    ensures NaturalCompare("c1.png", "a2.png") == Less
    ensures NaturalCompare("a2.png", "b.png") == Less
    ensures NaturalCompare("b.png", "c1.png") == Less
  {
    RunsOfC1();
    RunsOfA2();
    RunsOfB();
    assert Value("1") == 1 && Value("2") == 2;
  }

  lemma RunsOfC1()
    ensures DigitRuns("c1.png") == ["1"]
  {
    assert NoDigits("c") && NoDigits(".png");
    RunsOfNumberedName("c", "1", ".png");
    assert "c1.png" == "c" + "1" + ".png";
  }

  lemma RunsOfA2()
    ensures DigitRuns("a2.png") == ["2"]
  {
    assert NoDigits("a") && NoDigits(".png");
    RunsOfNumberedName("a", "2", ".png");
    assert "a2.png" == "a" + "2" + ".png";
  }

  lemma RunsOfB()
    ensures DigitRuns("b.png") == []
  {
    assert NoDigits("b.png");
    DigitRunsOfNoDigits("b.png");
  }

  // The sort. `sort_by` is the library's; with a comparator that is not a
  // total order (see NotTransitive) it may panic, and otherwise only
  // promises a permutation of the input in an unspecified order. The model
  // stands an insertion sort in its place: it always returns, and its
  // result is a permutation in which no neighbour pair is out of order, a
  // property of the stand-in and not of the library. Items are sorted by
  // their file name, `name(x)`.

  ghost predicate AdjacentOrdered<T>(s: seq<T>, name: T -> string) {
    forall k :: 0 <= k < |s| - 1 ==> NaturalCompare(name(s[k]), name(s[k + 1])) != Greater
  }

  lemma AdjacentOrderedTail<T>(s: seq<T>, name: T -> string)
    requires s != [] && AdjacentOrdered(s, name)
    ensures AdjacentOrdered(s[1..], name)
  {
    forall k | 0 <= k < |s[1..]| - 1
      ensures NaturalCompare(name(s[1..][k]), name(s[1..][k + 1])) != Greater
    {
      assert s[1..][k] == s[k + 1] && s[1..][k + 1] == s[k + 2];
    }
  }

  /** A head in order with the first element of an ordered rest. */
  lemma AdjacentOrderedCons<T>(h: T, t: seq<T>, name: T -> string)
    requires t != [] && AdjacentOrdered(t, name)
    requires NaturalCompare(name(h), name(t[0])) != Greater
    ensures AdjacentOrdered([h] + t, name)
  {
    var r := [h] + t;
    forall k | 0 <= k < |r| - 1
      ensures NaturalCompare(name(r[k]), name(r[k + 1])) != Greater
    {
      if k > 0 {
        assert r[k] == t[k - 1] && r[k + 1] == t[k];
      }
    }
  }

  function Insert<T>(x: T, s: seq<T>, name: T -> string): (r: seq<T>)
    ensures |r| == |s| + 1 && multiset(r) == multiset(s) + multiset{x}
    ensures r[0] == x || (s != [] && r[0] == s[0])
    ensures AdjacentOrdered(s, name) ==> AdjacentOrdered(r, name)
  {
    if s == [] then [x]
    else if NaturalCompare(name(x), name(s[0])) != Greater then
      assert AdjacentOrdered(s, name) ==> AdjacentOrdered([x] + s, name) by {
        if AdjacentOrdered(s, name) {
          AdjacentOrderedCons(x, s, name);
        }
      }
      [x] + s
    else
      var t := Insert(x, s[1..], name);
      assert s == [s[0]] + s[1..];
      assert AdjacentOrdered(s, name) ==> AdjacentOrdered([s[0]] + t, name) by {
        if AdjacentOrdered(s, name) {
          AdjacentOrderedTail(s, name);
          NaturalAntisymmetric(name(x), name(s[0]));
          assert NaturalCompare(name(s[0]), name(t[0])) != Greater;
          AdjacentOrderedCons(s[0], t, name);
        }
      }
      [s[0]] + t
  }

  /** The stand-in sort: a permutation of the input with every neighbour
      pair in comparator order. */
  function SortImages<T>(s: seq<T>, name: T -> string): (r: seq<T>)
    ensures |r| == |s| && multiset(r) == multiset(s)
    ensures AdjacentOrdered(r, name)
  {
    if s == [] then []
    else
      assert s == [s[0]] + s[1..];
      Insert(s[0], SortImages(s[1..], name), name)
  }
}
