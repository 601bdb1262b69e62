// The compatibility score of two profiles, over exact real numbers.
module Compatibility {
  import opened Documents
  import opened Ordering

  // Coordinates may be missing, or present with fewer than two numbers.
  datatype Profile = Profile(interests: seq<Id>, goals: seq<Id>, age: int, coordinates: Option<seq<real>>)

  datatype Factors = Factors(interests: int, goals: int, age: int, location: int)

  datatype Recommendation = High | Medium | Low | VeryLow

  // `Math.round`.
  function Round(x: real): int {
    (x + 0.5).Floor
  }

  function Max(a: nat, b: nat): nat {
    if a < b then b else a
  }

  // The items of the first list that the second one has.
  function Common(mine: seq<Id>, theirs: seq<Id>): (r: seq<Id>)
    ensures |r| <= |mine|
  {
    if mine == [] then []
    else (if mine[0] in theirs then [mine[0]] else []) + Common(mine[1..], theirs)
  }

  function ShareScore(mine: seq<Id>, theirs: seq<Id>, weight: real): real {
    var common := |Common(mine, theirs)|;
    if common > 0 then common as real / Max(|mine|, |theirs|) as real * weight else 0.0
  }

  function AgeScore(a: int, b: int): int {
    var diff := if a < b then b - a else a - b;
    if diff <= 5 then 20 else if diff <= 10 then 15 else if diff <= 15 then 10 else 5
  }

  // Whether the distance is at most `km`: one degree counts as 111 km, and both sides are squared.
  predicate Within(p: seq<real>, q: seq<real>, km: real)
    requires |p| >= 2 && |q| >= 2
  {
    (p[0] - q[0]) * (p[0] - q[0]) + (p[1] - q[1]) * (p[1] - q[1]) <= km * km / 12321.0
  }

  // A missing number makes the distance incomparable, which falls through to the last tier.
  function LocationScore(a: Option<seq<real>>, b: Option<seq<real>>): int {
    if a.None? || b.None? then 0
    else if |a.value| < 2 || |b.value| < 2 then 2
    else if Within(a.value, b.value, 10.0) then 10
    else if Within(a.value, b.value, 50.0) then 7
    else if Within(a.value, b.value, 100.0) then 5
    else 2
  }

  function Score(a: Profile, b: Profile): real {
    ShareScore(a.interests, b.interests, 40.0) + ShareScore(a.goals, b.goals, 30.0)
    + AgeScore(a.age, b.age) as real + LocationScore(a.coordinates, b.coordinates) as real
  }

  /** The method as written: the score and its factors accumulate side by side. */
  method CalculateCompatibility(a: Profile, b: Profile)
    returns (totalScore: int, factors: Factors, recommendation: Recommendation)
    ensures totalScore == Round(Score(a, b))
    // Rounding is to the nearest integer, halves upwards, and of the sum of the four parts.
    ensures var exact := ShareScore(a.interests, b.interests, 40.0) + ShareScore(a.goals, b.goals, 30.0)
                         + factors.age as real + factors.location as real;
            totalScore as real - 0.5 <= exact < totalScore as real + 0.5
    ensures factors.interests as real - 0.5 <= ShareScore(a.interests, b.interests, 40.0) < factors.interests as real + 0.5
    ensures factors.goals as real - 0.5 <= ShareScore(a.goals, b.goals, 30.0) < factors.goals as real + 0.5
    // Ages at most 5, 10, 15 years apart, or more.
    ensures factors.age == 20 <==> -5 <= a.age - b.age <= 5
    ensures factors.age >= 15 <==> -10 <= a.age - b.age <= 10
    ensures factors.age >= 10 <==> -15 <= a.age - b.age <= 15
    ensures factors.age in {5, 10, 15, 20}
    // At most 10, 50, 100 km apart, with 111 km to a degree, or more; nothing when one place is unknown.
    ensures factors.location == 0 <==> a.coordinates.None? || b.coordinates.None?
    ensures a.coordinates.Some? && b.coordinates.Some? && |a.coordinates.value| >= 2 && |b.coordinates.value| >= 2 ==>
              var p, q := a.coordinates.value, b.coordinates.value;
              var square := 12321.0 * ((p[0] - q[0]) * (p[0] - q[0]) + (p[1] - q[1]) * (p[1] - q[1]));
              && (factors.location == 10 <==> square <= 100.0) && (factors.location >= 7 <==> square <= 2500.0)
              && (factors.location >= 5 <==> square <= 10000.0)
    ensures factors.location in {0, 2, 5, 7, 10}
    ensures 5 <= totalScore <= 100
    ensures var sum := factors.interests + factors.goals + factors.age + factors.location;
            -1 <= totalScore - sum <= 1
    ensures recommendation == High <==> Score(a, b) >= 70.0
    ensures recommendation == Medium <==> 50.0 <= Score(a, b) < 70.0
    ensures recommendation == VeryLow <==> Score(a, b) < 30.0
  {
    ShareBounds(a.interests, b.interests, 40.0);
    ShareBounds(a.goals, b.goals, 30.0);
    var compatibilityScore := 0.0;
    factors := Factors(0, 0, 0, 0);

    var interestScore := ShareScore(a.interests, b.interests, 40.0);
    compatibilityScore := compatibilityScore + interestScore;
    factors := factors.(interests := Round(interestScore));

    var goalScore := ShareScore(a.goals, b.goals, 30.0);
    compatibilityScore := compatibilityScore + goalScore;
    factors := factors.(goals := Round(goalScore));

    var ageScore := AgeScore(a.age, b.age);
    compatibilityScore := compatibilityScore + ageScore as real;
    factors := factors.(age := ageScore);

    var locationScore := LocationScore(a.coordinates, b.coordinates);
    compatibilityScore := compatibilityScore + locationScore as real;
    factors := factors.(location := locationScore);

    totalScore := Round(compatibilityScore);
    recommendation := if compatibilityScore >= 70.0 then High
                      else if compatibilityScore >= 50.0 then Medium
                      else if compatibilityScore >= 30.0 then Low else VeryLow;
  }

  /** A share is the weight times the places of the first list that the second one has, over the longer list. */
  lemma ShareMeans(mine: seq<Id>, theirs: seq<Id>, weight: real)
    ensures var common := |set i: int | 0 <= i < |mine| && mine[i] in theirs|;
            ShareScore(mine, theirs, weight) ==
            if common == 0 then 0.0 else common as real / (if |mine| < |theirs| then |theirs| else |mine|) as real * weight
  {
    CommonCounts(mine, theirs);
  }

  lemma {:induction false} CommonCounts(mine: seq<Id>, theirs: seq<Id>)
    ensures |Common(mine, theirs)| == |set i: int | 0 <= i < |mine| && mine[i] in theirs|
  {
    var places := set i: int | 0 <= i < |mine| && mine[i] in theirs;
    if mine == [] {
      assert places == {};
    } else {
      var rest := set i: int | 0 <= i < |mine[1..]| && mine[1..][i] in theirs;
      CommonCounts(mine[1..], theirs);
      var shifted := set i: int | i in rest :: i + 1;
      ImageSize(rest, (i: int) => i + 1, shifted);
      forall i | i in places && i != 0 ensures i in shifted {
        assert i - 1 in rest;
      }
      assert places == shifted + (if mine[0] in theirs then {0} else {});
    }
  }

  /** A share is between nothing and its weight. */
  lemma ShareBounds(mine: seq<Id>, theirs: seq<Id>, weight: real)
    requires weight >= 0.0
    ensures 0.0 <= ShareScore(mine, theirs, weight) <= weight
  {
    var common, all := |Common(mine, theirs)|, Max(|mine|, |theirs|);
    if common > 0 {
      Fraction(common, all, weight);
    }
  }

  lemma Fraction(common: nat, all: nat, weight: real)
    requires 0 < common <= all && weight >= 0.0
    ensures 0.0 <= common as real / all as real <= 1.0
    ensures 0.0 <= common as real / all as real * weight <= weight
    ensures weight > 0.0 ==> (common as real / all as real * weight == weight <==> common == all)
  {
    var ratio := common as real / all as real;
    Ratio(common as real, all as real);
    Scaled(ratio, weight);
  }

  lemma Ratio(c: real, a: real)
    requires 0.0 < c <= a
    ensures 0.0 <= c / a <= 1.0 && (c / a == 1.0 <==> c == a)
  {
    var r := c / a;
    assert r * a == c;
    assert (r - 1.0) * a == r * a - a;
    SignOfProduct(r - 1.0, a);
    SignOfProduct(r, a);
  }

  lemma SignOfProduct(x: real, y: real)
    requires y > 0.0
    ensures x > 0.0 ==> x * y > 0.0
    ensures x < 0.0 ==> x * y < 0.0
  {
  }

  lemma Scaled(ratio: real, weight: real)
    requires 0.0 <= ratio <= 1.0 && weight >= 0.0
    ensures 0.0 <= ratio * weight <= weight
    ensures weight > 0.0 ==> (ratio * weight == weight <==> ratio == 1.0)
  {
    assert weight - ratio * weight == (1.0 - ratio) * weight;
  }

  // Without repeats, the common items are the intersection.
  lemma {:induction false} CommonIsIntersection(mine: seq<Id>, theirs: seq<Id>)
    requires NoRepeats(mine)
    ensures |Common(mine, theirs)| == |Elements(mine) * Elements(theirs)|
  {
    if mine == [] {
      assert Elements(mine) * Elements(theirs) == {};
    } else {
      CommonIsIntersection(mine[1..], theirs);
      assert mine == [mine[0]] + mine[1..];
      assert mine[0] !in Elements(mine[1..]);
      if mine[0] in theirs {
        assert Elements(mine) * Elements(theirs) == Elements(mine[1..]) * Elements(theirs) + {mine[0]};
      } else {
        assert Elements(mine) * Elements(theirs) == Elements(mine[1..]) * Elements(theirs);
      }
    }
  }

  // By how many the first user has more items in common, counted with repeats, than the second.
  function OneSided(mine: seq<Id>, theirs: seq<Id>): int {
    |Common(mine, theirs)| - |Common(theirs, mine)|
  }

  // The length of the longer list, and 1 for two empty ones.
  function LongerLength(mine: seq<Id>, theirs: seq<Id>): (n: nat)
    ensures n >= 1
  {
    Max(1, Max(|mine|, |theirs|))
  }

  lemma ShareAsQuotient(mine: seq<Id>, theirs: seq<Id>, weight: real)
    ensures ShareScore(mine, theirs, weight) == |Common(mine, theirs)| as real / LongerLength(mine, theirs) as real * weight
  {
  }

  lemma ShareDifference(mine: seq<Id>, theirs: seq<Id>, weight: real)
    ensures ShareScore(mine, theirs, weight) - ShareScore(theirs, mine, weight) ==
            OneSided(mine, theirs) as real / LongerLength(mine, theirs) as real * weight
  {
    hide ShareScore, Common;
    var n := LongerLength(mine, theirs) as real;
    ShareAsQuotient(mine, theirs, weight);
    ShareAsQuotient(theirs, mine, weight);
    QuotientOfDifference(|Common(mine, theirs)| as real, |Common(theirs, mine)| as real, n, weight);
  }

  lemma QuotientOfDifference(x: real, y: real, n: real, weight: real)
    requires n > 0.0
    ensures x / n * weight - y / n * weight == (x - y) / n * weight
  {
    assert x / n - y / n == (x - y) / n;
  }

  /** A share does not depend on who asks if and only if each user has as many items in common, repeats counted. */
  lemma ShareIsSymmetricIff(mine: seq<Id>, theirs: seq<Id>, weight: real)
    requires weight > 0.0
    ensures ShareScore(mine, theirs, weight) == ShareScore(theirs, mine, weight) <==> OneSided(mine, theirs) == 0
  {
    ShareDifference(mine, theirs, weight);
    var d, n := OneSided(mine, theirs), LongerLength(mine, theirs);
    Cleared(d as real, n as real, weight);
  }

  lemma Cleared(d: real, n: real, weight: real)
    requires n > 0.0 && weight > 0.0
    ensures d / n * weight == 0.0 <==> d == 0.0
  {
    var q := d / n;
    assert q * n == d;
    if q != 0.0 {
      SignOfProduct(q, weight);
      SignOfProduct(q, n);
    }
  }

  /**
   * The score does not depend on who asks if and only if the surplus of common interests and that of common goals,
   * each over its longer list and with its weight, cancel out.
   */
  lemma ScoreIsSymmetricIff(a: Profile, b: Profile)
    ensures Score(a, b) == Score(b, a) <==>
            4 * OneSided(a.interests, b.interests) * LongerLength(a.goals, b.goals)
            + 3 * OneSided(a.goals, b.goals) * LongerLength(a.interests, b.interests) == 0
  {
    hide ShareScore, AgeScore, LocationScore, OneSided, LongerLength;
    DistanceIsSymmetric(a.coordinates, b.coordinates);
    AgeIsSymmetric(a.age, b.age);
    ShareDifference(a.interests, b.interests, 40.0);
    ShareDifference(a.goals, b.goals, 30.0);
    var d := OneSided(a.interests, b.interests) as real / LongerLength(a.interests, b.interests) as real * 40.0
             + OneSided(a.goals, b.goals) as real / LongerLength(a.goals, b.goals) as real * 30.0;
    assert Score(a, b) - Score(b, a) == d;
    CommonDenominator(OneSided(a.interests, b.interests), LongerLength(a.interests, b.interests),
                      OneSided(a.goals, b.goals), LongerLength(a.goals, b.goals));
  }

  lemma CommonDenominator(x: int, n: nat, y: int, m: nat)
    requires n > 0 && m > 0
    ensures x as real / n as real * 40.0 + y as real / m as real * 30.0 == 0.0 <==> 4 * x * m + 3 * y * n == 0
  {
    var p, q := x as real / n as real, y as real / m as real;
    var nm := n as real * m as real;
    assert p * n as real == x as real && q * m as real == y as real;
    SignOfProduct(n as real, m as real);
    assert (p * 40.0 + q * 30.0) * nm == 40.0 * (p * n as real) * m as real + 30.0 * (q * m as real) * n as real;
    assert 40.0 * x as real * m as real + 30.0 * y as real * n as real == 10.0 * (4 * x * m + 3 * y * n) as real;
    if p * 40.0 + q * 30.0 != 0.0 {
      SignOfProduct(p * 40.0 + q * 30.0, nm);
    }
  }

  /** For lists without repeats the score does not depend on who asks. */
  lemma ScoreIsSymmetric(a: Profile, b: Profile)
    requires NoRepeats(a.interests) && NoRepeats(b.interests) && NoRepeats(a.goals) && NoRepeats(b.goals)
    ensures Score(a, b) == Score(b, a)
  {
    CommonIsMutual(a.interests, b.interests);
    CommonIsMutual(a.goals, b.goals);
    ScoreIsSymmetricIff(a, b);
  }

  lemma CommonIsMutual(mine: seq<Id>, theirs: seq<Id>)
    requires NoRepeats(mine) && NoRepeats(theirs)
    ensures OneSided(mine, theirs) == 0
  {
    CommonIsIntersection(mine, theirs);
    CommonIsIntersection(theirs, mine);
    assert Elements(mine) * Elements(theirs) == Elements(theirs) * Elements(mine);
  }

  lemma AgeIsSymmetric(a: int, b: int)
    ensures AgeScore(a, b) == AgeScore(b, a)
  {
  }

  lemma DistanceIsSymmetric(a: Option<seq<real>>, b: Option<seq<real>>)
    ensures LocationScore(a, b) == LocationScore(b, a)
  {
    if a.Some? && b.Some? && |a.value| >= 2 && |b.value| >= 2 {
      SquareOfDifference(a.value[0], b.value[0]);
      SquareOfDifference(a.value[1], b.value[1]);
    }
  }

  lemma SquareOfDifference(x: real, y: real)
    ensures (x - y) * (x - y) == (y - x) * (y - x)
  {
  }

  /** With repeats the score can depend on who asks, although it need not. */
  lemma RepeatsBreakSymmetry() returns (a: Profile, b: Profile, c: Profile)
    ensures !NoRepeats(a.interests) && Score(a, b) != Score(b, a)
    ensures !NoRepeats(c.interests) && Score(c, b) == Score(b, c)
  {
    a, b, c := Profile([1, 1], [], 30, None), Profile([1, 2], [], 30, None), Profile([3, 3], [], 30, None);
    hide Score, Common;
    CommonOfTwo(1, 1, b.interests);
    CommonOfTwo(1, 2, a.interests);
    CommonOfTwo(3, 3, b.interests);
    CommonOfTwo(1, 2, c.interests);
    assert OneSided(a.goals, b.goals) == 0 == OneSided(c.goals, b.goals);
    ScoreIsSymmetricIff(a, b);
    ScoreIsSymmetricIff(c, b);
  }

  lemma CommonOfTwo(x: Id, y: Id, theirs: seq<Id>)
    ensures Common([x, y], theirs) == (if x in theirs then [x] else []) + (if y in theirs then [y] else [])
  {
    assert [x, y][1..] == [y] && [y][1..] == [];
  }

  // Without repeats, as many common items as there can be are all of both lists.
  lemma AllCommonIffSameItems(mine: seq<Id>, theirs: seq<Id>)
    requires NoRepeats(mine) && NoRepeats(theirs)
    ensures |Common(mine, theirs)| == Max(|mine|, |theirs|) <==> Elements(mine) == Elements(theirs)
    ensures |Common(mine, theirs)| <= Max(|mine|, |theirs|)
  {
    CommonIsIntersection(mine, theirs);
    NoRepeatsSize(mine);
    NoRepeatsSize(theirs);
    SharedSize(Elements(mine), Elements(theirs));
  }

  /** For lists without repeats a share is full exactly when the lists name the same, at least one, items. */
  lemma FullShareIffSameItems(mine: seq<Id>, theirs: seq<Id>, weight: real)
    requires NoRepeats(mine) && NoRepeats(theirs) && weight > 0.0
    ensures ShareScore(mine, theirs, weight) == weight <==> Elements(mine) == Elements(theirs) && mine != []
  {
    hide Common, NoRepeats, Elements;
    AllCommonIffSameItems(mine, theirs);
    if |Common(mine, theirs)| > 0 {
      Fraction(|Common(mine, theirs)|, Max(|mine|, |theirs|), weight);
    }
  }

  lemma SharedSize<T>(a: set<T>, b: set<T>)
    ensures |a * b| == |a| && |a * b| == |b| <==> a == b
    ensures |a * b| <= |a| && |a * b| <= |b|
  {
    assert |a| == |a * b| + |a - b| by { assert a == a * b + (a - b); }
    assert |b| == |a * b| + |b - a| by { assert b == a * b + (b - a); }
  }
}
