/** The order the JavaFX tool sorts images in (MainController.java,
    `toMatchResults` and `imagesCompare`). The digit runs of each file name
    are found with `(\d+)`, which in Java matches ASCII digits only, but the
    first run is consumed without being collected; when either list is empty
    or the lists differ in length the paths compare as text, otherwise the
    first pair of unequal `long` values decides. */
module JavaOrder {
  import opened Text
  import opened Decimal
  import opened NaturalOrder

  /** `Long.MAX_VALUE`. */
  const LongMax: nat := 0x7FFF_FFFF_FFFF_FFFF

  /** The outcome of `imagesCompare`: a sign, or the `NumberFormatException`
      that `Long.parseLong` throws for a run beyond the `long` range. */
  datatype Compared = Compared(ord: Ordering) | NumberFormatError {
    function Flip(): Compared {
      match this
      case Compared(o) => Compared(o.Flip())
      case NumberFormatError => NumberFormatError
    }
  }

  /** `Long.parseLong` of a digit run. */
  function ParseLong(run: string): (r: Option<nat>)
    requires IsRun(run)
    ensures r.Some? <==> Value(run) <= LongMax
    ensures r.Some? ==> r.value == Value(run)
  {
    if Value(run) <= LongMax then Some(Value(run)) else None
  }

  /** The collected matches of a name: its digit runs after the first. */
  function MatchResults(name: string): (r: seq<string>)
    ensures AllRuns(r)
  {
    var runs := DigitRuns(name);
    if runs == [] then [] else runs[1..]
  }

  /** The method as written: one `find()` that is thrown away, then a loop
      that adds every further match. */
  method ToMatchResults(name: string) returns (results: seq<string>)
    ensures |results| == if DigitRuns(name) == [] then 0 else |DigitRuns(name)| - 1
    ensures forall k :: 0 <= k < |results| ==> results[k] == DigitRuns(name)[k + 1]
    ensures results == MatchResults(name)
  {
    var runs := DigitRuns(name);
    if runs == [] {
      return [];
    }
    results := [];
    var next := 1;
    while next < |runs|
      invariant 1 <= next <= |runs|
      invariant results == runs[1..next]
    {
      results := results + [runs[next]];
      next := next + 1;
    }
  }

  /** The lengths are equal and the runs are compared from the front. */
  function CompareLongs(r1: seq<string>, r2: seq<string>, a: string, b: string): Compared
    requires AllRuns(r1) && AllRuns(r2) && |r1| == |r2|
    decreases |r1|
  {
    if r1 == [] then Compared(LexCompare(a, b))
    else
      var n1, n2 := ParseLong(r1[0]), ParseLong(r2[0]);
      if n1.None? || n2.None? then NumberFormatError
      else if n1.value != n2.value then Compared(IntCompare(n1.value, n2.value))
      else CompareLongs(r1[1..], r2[1..], a, b)
  }

  /** `imagesCompare` on two file names of one directory. */
  function JavaCompare(a: string, b: string): Compared {
    var r1, r2 := MatchResults(a), MatchResults(b);
    if |r1| < 1 || |r2| < 1 || |r1| != |r2| then Compared(LexCompare(a, b))
    else CompareLongs(r1, r2, a, b)
  }

  /** The comparator as written: step both iterators while both have a next
      element. */
  method ImagesCompare(a: string, b: string) returns (r: Compared)
    ensures r == JavaCompare(a, b)
  {
    var r1 := ToMatchResults(a);
    var r2 := ToMatchResults(b);
    if |r1| < 1 || |r2| < 1 || |r1| != |r2| {
      return Compared(LexCompare(a, b));
    }
    var k := 0;
    while k < |r1| && k < |r2|
      invariant k <= |r1| == |r2|
      invariant CompareLongs(r1[k..], r2[k..], a, b) == JavaCompare(a, b)
    {
      var n1 := ParseLong(r1[k]);
      var n2 := ParseLong(r2[k]);
      if n1.None? || n2.None? {
        return NumberFormatError;
      }
      if n1.value != n2.value {
        return Compared(IntCompare(n1.value, n2.value));
      }
      assert r1[k..][1..] == r1[k + 1..] && r2[k..][1..] == r2[k + 1..];
      k := k + 1;
    }
    return Compared(LexCompare(a, b));
  }

  lemma {:induction false} CompareLongsAntisymmetric(r1: seq<string>, r2: seq<string>, a: string, b: string)
    requires AllRuns(r1) && AllRuns(r2) && |r1| == |r2|
    ensures CompareLongs(r2, r1, b, a) == CompareLongs(r1, r2, a, b).Flip()
    decreases |r1|
  {
    LexAntisymmetric(a, b);
    if r1 != [] {
      CompareLongsAntisymmetric(r1[1..], r2[1..], a, b);
    }
  }

  /** Swapping the arguments flips the sign, and an exception is thrown
      either way or neither. */
  lemma JavaAntisymmetric(a: string, b: string)
    ensures JavaCompare(b, a) == JavaCompare(a, b).Flip()
  {
    LexAntisymmetric(a, b);
    var r1, r2 := MatchResults(a), MatchResults(b);
    if !(|r1| < 1 || |r2| < 1 || |r1| != |r2|) {
      CompareLongsAntisymmetric(r1, r2, a, b);
    }
  }

  lemma {:induction false} CompareLongsEqual(r1: seq<string>, r2: seq<string>, a: string, b: string)
    requires AllRuns(r1) && AllRuns(r2) && |r1| == |r2|
    ensures CompareLongs(r1, r2, a, b) == Compared(Equal) ==> a == b
    decreases |r1|
  {
    if r1 != [] {
      CompareLongsEqual(r1[1..], r2[1..], a, b);
    }
  }

  /** Only identical names compare equal. */
  lemma JavaEqualOnlyIfSame(a: string, b: string)
    ensures JavaCompare(a, b) == Compared(Equal) ==> a == b
  {
    var r1, r2 := MatchResults(a), MatchResults(b);
    if !(|r1| < 1 || |r2| < 1 || |r1| != |r2|) {
      CompareLongsEqual(r1, r2, a, b);
    }
  }

  predicate AllLongs(runs: seq<string>)
    requires AllRuns(runs)
  {
    forall k :: 0 <= k < |runs| ==> Value(runs[k]) <= LongMax
  }

  lemma {:induction false} CompareLongsReflexive(r: seq<string>, a: string)
    requires AllRuns(r)
    ensures CompareLongs(r, r, a, a) == if AllLongs(r) then Compared(Equal) else NumberFormatError
    decreases |r|
  {
    if r != [] {
      CompareLongsReflexive(r[1..], a);
      assert AllLongs(r) <==> Value(r[0]) <= LongMax && AllLongs(r[1..]) by {
        forall k | 0 < k < |r| ensures r[k] == r[1..][k - 1] { }
      }
    }
  }

  /** A name compared with itself is Equal unless one of its collected runs
      is beyond `long`, in which case even this comparison throws. */
  lemma JavaReflexive(a: string)
    ensures JavaCompare(a, a) == if AllLongs(MatchResults(a)) then Compared(Equal) else NumberFormatError
  {
    CompareLongsReflexive(MatchResults(a), a);
  }

  /** Names that hold one number each compare as plain text: the only run is
      the dropped one. */
  lemma SingleNumberComparesAsText(p: string, d: string, s: string, q: string, e: string, t: string)
    requires NoDigits(p) && IsRun(d) && NoDigits(s)
    requires NoDigits(q) && IsRun(e) && NoDigits(t)
    ensures JavaCompare(p + d + s, q + e + t) == Compared(LexCompare(p + d + s, q + e + t))
  {
    RunsOfNumberedName(p, d, s);
    RunsOfNumberedName(q, e, t);
  }

  /** So `img2.jpg` sorts after `img10.jpg`, unlike in the Rust tool. */
  lemma PlainNumbersSortAsText()
    ensures JavaCompare("img2.jpg", "img10.jpg") == Compared(Greater)
    ensures NaturalCompare("img2.jpg", "img10.jpg") == Less
  {
    JavaImg();
    NaturalImg();
  }

  lemma JavaImg()
    ensures JavaCompare("img2.jpg", "img10.jpg") == Compared(Greater)
  {
    assert NoDigits("img") && NoDigits(".jpg");
    assert "img2.jpg" == "img" + "2" + ".jpg";
    assert "img10.jpg" == "img" + "10" + ".jpg";
    SingleNumberComparesAsText("img", "2", ".jpg", "img", "10", ".jpg");
    Img2AfterImg10();
  }

  lemma NaturalImg()
    ensures NaturalCompare("img2.jpg", "img10.jpg") == Less
  {
    assert NoDigits("img") && NoDigits(".jpg");
    assert ToDecimal(2) == "2";
    assert ToDecimal(10) == "10";
    NumberedNamesOrder("img", ".jpg", 2, 10);
    assert "img2.jpg" == "img" + "2" + ".jpg";
    assert "img10.jpg" == "img" + "10" + ".jpg";
  }

  lemma Img2AfterImg10()
    ensures LexCompare("img2.jpg", "img10.jpg") == Greater
  {
    assert "img2.jpg" == "img" + "2.jpg" && "img10.jpg" == "img" + "10.jpg";
    LexCommonPrefix("img", "2.jpg", "10.jpg");
  }

  /** The runs of a name with two numbers. */
  lemma RunsOfTwoNumbers(p: string, d: string, q: string, e: string, s: string)
    requires NoDigits(p) && IsRun(d) && NoDigits(q) && q != [] && IsRun(e) && NoDigits(s)
    ensures DigitRuns(p + d + q + e + s) == [d, e]
  {
    var tail := q + e + s;
    assert p + d + q + e + s == p + (d + tail);
    DigitRunsSkipsNoDigits(p, d + tail);
    assert tail[0] == q[0];
    DigitRunsOfRun(d, tail);
    RunsOfNumberedName(q, e, s);
    assert DigitRuns(d + tail) == [d] + [e];
  }

  /** With two numbers per name the first is ignored and the second decides:
      `v9p2.jpg` sorts before `v1p10.jpg`. */
  lemma SecondNumberDecides(p: string, d1: string, q: string, e1: string, s: string,
                            d2: string, e2: string)
    requires NoDigits(p) && NoDigits(q) && q != [] && NoDigits(s)
    requires IsRun(d1) && IsRun(e1) && IsRun(d2) && IsRun(e2)
    requires Value(e1) <= LongMax && Value(e2) <= LongMax && Value(e1) != Value(e2)
    ensures JavaCompare(p + d1 + q + e1 + s, p + d2 + q + e2 + s) == Compared(IntCompare(Value(e1), Value(e2)))
  {
    RunsOfTwoNumbers(p, d1, q, e1, s);
    RunsOfTwoNumbers(p, d2, q, e2, s);
    assert MatchResults(p + d1 + q + e1 + s) == [e1];
    assert MatchResults(p + d2 + q + e2 + s) == [e2];
  }

  /** A collected run beyond `long` throws unless an earlier pair already
      decided. */
  lemma OverflowThrows(a: string, b: string)
    requires |MatchResults(a)| == |MatchResults(b)| >= 1
    requires Value(MatchResults(a)[0]) > LongMax
    ensures JavaCompare(a, b) == NumberFormatError
  {
  }

  /** `imagesCompare` is not transitive either, so `List.sort` may throw
      `IllegalArgumentException`: `c0_1.jpg` < `a0_9.jpg` by the collected
      number, `a0_9.jpg` < `b.jpg` and `b.jpg` < `c0_1.jpg` by name. */
  lemma JavaNotTransitive()
    ensures JavaCompare("c0_1.jpg", "a0_9.jpg") == Compared(Less)
    ensures JavaCompare("a0_9.jpg", "b.jpg") == Compared(Less)
    ensures JavaCompare("b.jpg", "c0_1.jpg") == Compared(Less)
  {
    C01BeforeA09();
    A09BeforeB();
    BBeforeC01();
  }

  lemma C01BeforeA09()
    ensures JavaCompare("c0_1.jpg", "a0_9.jpg") == Compared(Less)
  {
    MatchesOfSecondRun('a', '9');
    MatchesOfSecondRun('c', '1');
    assert "a0_9.jpg" == ['a', '0', '_', '9'] + ".jpg";
    assert "c0_1.jpg" == ['c', '0', '_', '1'] + ".jpg";
    OneBeforeNine("c0_1.jpg", "a0_9.jpg");
  }

  lemma OneBeforeNine(a: string, b: string)
    ensures CompareLongs(["1"], ["9"], a, b) == Compared(Less)
  {
    assert Value("1") == 1 && Value("9") == 9;
    assert ["1"][1..] == [] && ["9"][1..] == [];
  }

  lemma A09BeforeB()
    ensures JavaCompare("a0_9.jpg", "b.jpg") == Compared(Less)
  {
    MatchesOfB();
    assert LexCompare("a0_9.jpg", "b.jpg") == Less;
  }

  lemma BBeforeC01()
    ensures JavaCompare("b.jpg", "c0_1.jpg") == Compared(Less)
  {
    MatchesOfB();
    assert LexCompare("b.jpg", "c0_1.jpg") == Less;
  }

  /** The collected matches of a name `<p>0_<d>.jpg`: the second digit. */
  lemma MatchesOfSecondRun(p: char, d: char)
    requires !IsDigit(p) && IsDigit(d)
    ensures MatchResults([p, '0', '_', d] + ".jpg") == [[d]]
  {
    assert NoDigits([p]) && NoDigits("_") && NoDigits(".jpg");
    RunsOfTwoNumbers([p], "0", "_", [d], ".jpg");
    assert [p, '0', '_', d] + ".jpg" == [p] + "0" + "_" + [d] + ".jpg";
  }

  lemma MatchesOfB()
    ensures MatchResults("b.jpg") == []
  {
    assert NoDigits("b.jpg");
    DigitRunsSkipsNoDigits("b.jpg", []);
    assert "b.jpg" + [] == "b.jpg";
  }
}
