/** The offer service's version bump: a two-row edit distance over the contents,
    the change percentage made from it, and the version chosen by the percentage. */
module Offers {
  import opened Wrappers
  import opened EditDistance

  const INT32_MAX: int := 0x7fff_ffff

  /** A cell of an Int32Array. */
  newtype int32 = x: int | -0x8000_0000 <= x < 0x8000_0000

  /** The entry of the distance table for the first `j` characters of `s1` and the first `i`
      of `s2`. */
  ghost function Cell(s1: string, s2: string, i: nat, j: nat): nat
    requires i <= |s2| && j <= |s1|
  {
    Distance(s1[..j], s2[..i])
  }

  /** `row` holds the first `upTo` entries of row `i` of the distance table. */
  ghost predicate IsRow(row: array<int32>, s1: string, s2: string, i: nat, upTo: nat)
    requires i <= |s2| && upTo <= |s1| + 1 && upTo <= row.Length
    reads row
  {
    forall j | 0 <= j < upTo :: row[j] as int == Cell(s1, s2, i, j)
  }

  /** An entry is at most the larger of its two prefix lengths, so it fits in 32 bits. */
  lemma CellFits(s1: string, s2: string, i: nat, j: nat)
    requires i <= |s2| <= INT32_MAX && j <= |s1| <= INT32_MAX
    ensures Cell(s1, s2, i, j) <= Max(i, j) <= INT32_MAX
    ensures i == 0 ==> Cell(s1, s2, i, j) == j
    ensures j == 0 ==> Cell(s1, s2, i, j) == i
  {
    LengthBounds(s1[..j], s2[..i]);
  }

  /** The recurrence of one inner step. */
  lemma NextCell(s1: string, s2: string, i: nat, j: nat)
    requires 1 <= i <= |s2| && 1 <= j <= |s1|
    ensures Cell(s1, s2, i, j) ==
            Best(Cell(s1, s2, i - 1, j), Cell(s1, s2, i, j - 1), Cell(s1, s2, i - 1, j - 1),
                 s1[j - 1], s2[i - 1])
  {
    hide Distance;
    Recurrence(s1[..j], s2[..i]);
    assert Init(s1[..j]) == s1[..j - 1] && Init(s2[..i]) == s2[..i - 1];
  }

  lemma WholeStrings(s1: string, s2: string)
    ensures Cell(s1, s2, |s2|, |s1|) == Distance(s1, s2)
  {
    assert s1[..|s1|] == s1 && s2[..|s2|] == s2;
  }

  /** Two rows of 32-bit cells, swapped after each character of the longer string.  Every
      conversion to `int32` is proved to be in range, so no cell overflows. */
  method LevenshteinDistance(s1: string, s2: string) returns (d: int)
    requires |s1| <= INT32_MAX && |s2| <= INT32_MAX
    ensures d == Distance(s1, s2)
    decreases if |s1| > |s2| then 1 else 0
  {
    hide Distance, Cell;
    var n, m := |s1|, |s2|;
    if n > m {
      d := LevenshteinDistance(s2, s1);
      Symmetric(s1, s2);
      return;
    }
    var prevRow := new int32[n + 1](_ => 0);
    var currRow := new int32[n + 1](_ => 0);
    for i := 0 to n + 1
      invariant IsRow(prevRow, s1, s2, 0, i)
    {
      CellFits(s1, s2, 0, i);
      prevRow[i] := i as int32;
    }
    for i := 1 to m + 1
      invariant prevRow != currRow && prevRow.Length == currRow.Length == n + 1
      invariant fresh(prevRow) && fresh(currRow)
      invariant IsRow(prevRow, s1, s2, i - 1, n + 1)
    {
      CellFits(s1, s2, i, 0);
      currRow[0] := i as int32;
      for j := 1 to n + 1
        invariant IsRow(prevRow, s1, s2, i - 1, n + 1)
        invariant IsRow(currRow, s1, s2, i, j)
      {
        var cost := if s1[j - 1] == s2[i - 1] then 0 else 1;
        NextCell(s1, s2, i, j);
        CellFits(s1, s2, i, j);
        currRow[j] := Min(Min(prevRow[j] as int + 1, currRow[j - 1] as int + 1),
                          prevRow[j - 1] as int + cost) as int32;
      }
      prevRow, currRow := currRow, prevRow;
    }
    WholeStrings(s1, s2);
    d := prevRow[n] as int;
  }

  /** A missing content reads as empty. */
  function OrEmpty(content: Option<string>): (text: string)
    ensures content == Some(text) || (content == None && text == "")
  {
    match content
    case Some(text) => text
    case None => ""
  }

  /** The share of the longer text that a cheapest script changes, in percent. */
  function ChangePercentage(oldContent: Option<string>, newContent: Option<string>): (p: real) {
    var oldVal, newVal := OrEmpty(oldContent), OrEmpty(newContent);
    if oldVal == "" && newVal == "" then 0.0
    else Distance(oldVal, newVal) as real / Max(Max(|oldVal|, |newVal|), 1) as real * 100.0
  }

  method CalculateChangePercentage(oldContent: Option<string>, newContent: Option<string>)
    returns (p: real)
    requires |OrEmpty(oldContent)| <= INT32_MAX && |OrEmpty(newContent)| <= INT32_MAX
    ensures p == ChangePercentage(oldContent, newContent)
    ensures forall script :: IsCheapest(script, OrEmpty(oldContent), OrEmpty(newContent)) ==>
              p * LargerLength(oldContent, newContent) as real == 100.0 * Cost(script) as real
    ensures oldContent in {None, Some("")} && newContent in {None, Some("")} ==> p == 0.0
    ensures 0.0 <= p <= 100.0
    ensures p == 0.0 <==> OrEmpty(oldContent) == OrEmpty(newContent)
  {
    hide Distance, Run, Cost, Keeps, Deletes, IsCheapest, LargerLength;
    PercentageIsShare(oldContent, newContent);
    PercentageIsCost(oldContent, newContent);
    var oldVal, newVal := OrEmpty(oldContent), OrEmpty(newContent);
    if oldVal == "" && newVal == "" {
      return 0.0;
    }
    var distance := LevenshteinDistance(oldVal, newVal);
    var maxLen := Max(Max(|oldVal|, |newVal|), 1);
    p := distance as real / maxLen as real * 100.0;
  }

  ghost function LargerLength(oldContent: Option<string>, newContent: Option<string>): nat {
    if |OrEmpty(oldContent)| < |OrEmpty(newContent)| then |OrEmpty(newContent)| else |OrEmpty(oldContent)|
  }

  /** The percentage of the larger length is the cost of a script that no other one undercuts. */
  lemma PercentageIsCost(oldContent: Option<string>, newContent: Option<string>)
    ensures forall script :: IsCheapest(script, OrEmpty(oldContent), OrEmpty(newContent)) ==>
              && ChangePercentage(oldContent, newContent) * LargerLength(oldContent, newContent) as real ==
                 100.0 * Cost(script) as real
              && (LargerLength(oldContent, newContent) == 0 ==> Cost(script) == 0)
    ensures exists script :: IsCheapest(script, OrEmpty(oldContent), OrEmpty(newContent))
  {
    var a, b := OrEmpty(oldContent), OrEmpty(newContent);
    DistanceIsOptimal(a, b);
    hide Distance, Run, Cost;
    var best :| Run(best, a) == Some(b) && Cost(best) == Distance(a, b);
    assert IsCheapest(best, a, b);
    forall script | IsCheapest(script, a, b)
      ensures ChangePercentage(oldContent, newContent) * LargerLength(oldContent, newContent) as real ==
              100.0 * Cost(script) as real
      ensures LargerLength(oldContent, newContent) == 0 ==> Cost(script) == 0
    {
      CheapestCostsDistance(script, a, b);
      hide IsCheapest;
      PercentageIsDistance(oldContent, newContent);
    }
  }

  lemma PercentageIsDistance(oldContent: Option<string>, newContent: Option<string>)
    ensures var distance := Distance(OrEmpty(oldContent), OrEmpty(newContent));
            && ChangePercentage(oldContent, newContent) * LargerLength(oldContent, newContent) as real ==
               100.0 * distance as real
            && (LargerLength(oldContent, newContent) == 0 ==> distance == 0)
  {
    hide Distance;
    var a, b := OrEmpty(oldContent), OrEmpty(newContent);
    if a != "" || b != "" {
      ShareTimesWhole(Distance(a, b), LargerLength(oldContent, newContent));
    } else {
      NothingToChange();
    }
  }

  lemma NothingToChange()
    ensures Distance("", "") == 0
  {
  }

  lemma ShareTimesWhole(part: nat, whole: nat)
    requires 0 < whole
    ensures part as real / whole as real * 100.0 * whole as real == 100.0 * part as real
  {
    assert part as real / whole as real * whole as real == part as real;
  }

  /** The percentage lies in [0, 100], is 0 exactly for unchanged content, does not depend on
      which text is the old one, and is 100 exactly when there is a text and no script from the
      shorter text to the longer one keeps more characters than it deletes. */
  lemma PercentageIsShare(oldContent: Option<string>, newContent: Option<string>)
    ensures 0.0 <= ChangePercentage(oldContent, newContent) <= 100.0
    ensures ChangePercentage(oldContent, newContent) == 0.0 <==> OrEmpty(oldContent) == OrEmpty(newContent)
    ensures ChangePercentage(oldContent, newContent) == ChangePercentage(newContent, oldContent)
    ensures var a, b := OrEmpty(oldContent), OrEmpty(newContent);
            var shorter, longer := if |a| <= |b| then a else b, if |a| <= |b| then b else a;
            ChangePercentage(oldContent, newContent) == 100.0 <==>
            longer != "" && forall script :: Run(script, shorter) == Some(longer) ==> Keeps(script) <= Deletes(script)
  {
    var a, b := OrEmpty(oldContent), OrEmpty(newContent);
    LengthBounds(a, b);
    ZeroIffEqual(a, b);
    Symmetric(a, b);
    LargestDistance(if |a| <= |b| then a else b, if |a| <= |b| then b else a);
    hide Distance, Run, Keeps, Deletes;
    if a != "" || b != "" {
      ShareBounds(Distance(a, b), Max(|a|, |b|));
    }
  }

  lemma ShareBounds(part: nat, whole: nat)
    requires part <= whole && 0 < whole
    ensures 0.0 <= part as real / whole as real * 100.0 <= 100.0
    ensures part as real / whole as real * 100.0 == 0.0 <==> part == 0
    ensures part as real / whole as real * 100.0 == 100.0 <==> part == whole
  {
    var p, w := part as real, whole as real;
    assert p / w * w == p;
    Scale(p / w, 1.0, w);
    Scale(p / w, 0.0, w);
  }

  lemma Scale(a: real, b: real, c: real)
    requires c > 0.0
    ensures a < b <==> a * c < b * c
    ensures a > b <==> a * c > b * c
  {
    if a < b {
      assert (b - a) * c > 0.0;
    } else if a > b {
      assert (a - b) * c > 0.0;
    }
  }

  /** Comparing a quotient with a threshold is comparing the products. */
  lemma Above(p: real, whole: real, product: real, t: real)
    requires whole > 0.0 && p * whole == product
    ensures p > t <==> product > t * whole
    ensures p >= t <==> product >= t * whole
  {
    Scale(p, t, whole);
  }

  lemma Hundredfold(length: nat, cost: nat)
    ensures 100.0 * cost as real > 70.0 * length as real <==> 100 * cost > 70 * length
    ensures 100.0 * cost as real >= 20.0 * length as real <==> 100 * cost >= 20 * length
  {
    assert 70.0 * length as real == (70 * length) as real && 20.0 * length as real == (20 * length) as real;
    assert 100.0 * cost as real == (100 * cost) as real;
  }

  /** The comparisons with the thresholds, without the division. */
  lemma Thresholds(p: real, length: nat, cost: nat)
    requires p * length as real == 100.0 * cost as real && (length == 0 ==> cost == 0 && p == 0.0)
    ensures p > 70.0 <==> 100 * cost > 70 * length
    ensures p >= 20.0 <==> length > 0 && 100 * cost >= 20 * length
  {
    if length > 0 {
      var l, hundredfold := length as real, 100.0 * cost as real;
      Above(p, l, hundredfold, 70.0);
      Above(p, l, hundredfold, 20.0);
      Hundredfold(length, cost);
    }
  }

  /** A version `v<major>.<minor>.<patch>`. */
  datatype Version = Version(major: nat, minor: nat, patch: nat)

  ghost predicate Newer(a: Version, b: Version) {
    || a.major > b.major
    || (a.major == b.major && a.minor > b.minor)
    || (a.major == b.major && a.minor == b.minor && a.patch > b.patch)
  }

  ghost predicate IsLeastNewer(previous: Version, p: real, v: Version) {
    && Newer(v, previous)
    && (v.major > previous.major <==> p > 70.0)
    && (v.major == previous.major && v.minor > previous.minor <==> 20.0 <= p <= 70.0)
    && forall w: Version :: Newer(w, previous) &&
                            (p > 70.0 ==> w.major > previous.major) &&
                            (20.0 <= p ==> w.major > previous.major || w.minor > previous.minor)
                            ==> w == v || Newer(w, v)
  }

  lemma BumpIsLeast(previous: Version, p: real)
    ensures IsLeastNewer(previous, p,
                         if p > 70.0 then Version(previous.major + 1, 0, 0)
                         else if p >= 20.0 then Version(previous.major, previous.minor + 1, 0)
                         else Version(previous.major, previous.minor, previous.patch + 1))
  {
  }

  /** `parts` are the numbers of the stored version.  A version that is not three numbers
      restarts at v1.0.0; otherwise the new version is the least one above the old in the
      position the percentage selects. */
  method SmartIncrement(parts: seq<nat>, oldContent: Option<string>, newContent: Option<string>)
    returns (v: Version)
    requires |OrEmpty(oldContent)| <= INT32_MAX && |OrEmpty(newContent)| <= INT32_MAX
    ensures |parts| != 3 ==> v == Version(1, 0, 0)
    ensures |parts| == 3 ==>
              IsLeastNewer(Version(parts[0], parts[1], parts[2]), ChangePercentage(oldContent, newContent), v)
    ensures |parts| == 3 ==>
              forall script :: IsCheapest(script, OrEmpty(oldContent), OrEmpty(newContent)) ==>
                var cost, length := Cost(script), LargerLength(oldContent, newContent);
                v == if 100 * cost > 70 * length then Version(parts[0] + 1, 0, 0)
                     else if length > 0 && 100 * cost >= 20 * length then Version(parts[0], parts[1] + 1, 0)
                     else Version(parts[0], parts[1], parts[2] + 1)
    ensures |parts| == 3 && OrEmpty(oldContent) == OrEmpty(newContent) ==>
              v == Version(parts[0], parts[1], parts[2] + 1)
  {
    hide Distance, Run, Cost, ChangePercentage, IsCheapest, IsLeastNewer;
    var changePercentage := CalculateChangePercentage(oldContent, newContent);
    PercentageIsCost(oldContent, newContent);
    forall script | IsCheapest(script, OrEmpty(oldContent), OrEmpty(newContent))
      ensures var cost, length := Cost(script), LargerLength(oldContent, newContent);
              && (changePercentage > 70.0 <==> 100 * cost > 70 * length)
              && (changePercentage >= 20.0 <==> length > 0 && 100 * cost >= 20 * length)
    {
      Thresholds(changePercentage, LargerLength(oldContent, newContent), Cost(script));
    }
    if |parts| != 3 {
      return Version(1, 0, 0);
    }
    var major, minor, patch := parts[0], parts[1], parts[2];
    BumpIsLeast(Version(major, minor, patch), changePercentage);
    if changePercentage > 70.0 {
      major := major + 1;
      minor := 0;
      patch := 0;
    } else if changePercentage >= 20.0 {
      minor := minor + 1;
      patch := 0;
    } else {
      patch := patch + 1;
    }
    v := Version(major, minor, patch);
  }
}
