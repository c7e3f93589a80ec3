/**
 * Which level of a pyramid answers a request (`Pyramid::best_level`), and how a source pyramid is
 * cut down to the one level that is used (`ConfLoader::buildBasedPyramid`). A level is judged by
 * its ratio, the wanted resolution over its own: 0.8 to 1.8 is good enough to be shown.
 */
module LevelChoice {
  class Level {
    const id: string
    const res: real

    constructor (id: string, res: real)
      ensures this.id == id && this.res == res
    {
      this.id, this.res := id, res;
    }
  }

  /** The `Rung`s of a pyramid are its levels in the order of the map that holds them. */
  datatype Rung = Rung(id: string, res: real)

  datatype Ratio = Ratio(id: string, value: real)

  const LOW := 0.8
  const HIGH := 1.8

  predicate InRange(ratio: real) { LOW <= ratio <= HIGH }

  // ----- the best level -----

  /** `k` is the best of the first `n`: the smallest ratio from 0.8 on, else the largest of all. */
  ghost predicate IsBestOf(ratios: seq<real>, n: nat, k: nat)
    requires n <= |ratios|
  {
    && k < n
    && (ratios[k] >= LOW ==> forall i :: 0 <= i < n && ratios[i] >= LOW ==> ratios[k] <= ratios[i])
    && (ratios[k] < LOW ==> forall i :: 0 <= i < n ==> ratios[i] <= ratios[k])
  }

  ghost predicate IsBest(ratios: seq<real>, k: nat) { IsBestOf(ratios, |ratios|, k) }

  /**
   * The best ratio is the smallest of those from 0.8 on when there is one, else the largest of all.
   */
  lemma BestMeans(ratios: seq<real>, k: nat)
    ensures IsBest(ratios, k) <==>
      && k < |ratios|
      && ((exists i :: 0 <= i < |ratios| && ratios[i] >= 0.8) ==>
            ratios[k] >= 0.8 && forall i :: 0 <= i < |ratios| && ratios[i] >= 0.8 ==> ratios[k] <= ratios[i])
      && ((forall i :: 0 <= i < |ratios| ==> ratios[i] < 0.8) ==>
            forall i :: 0 <= i < |ratios| ==> ratios[i] <= ratios[k])
  {
    if k < |ratios| && ratios[k] < LOW {
      if i :| 0 <= i < |ratios| && ratios[i] >= 0.8 {
        assert !IsBest(ratios, k);
      }
    }
  }

  predicate PositiveSizes(levels: seq<Rung>) {
    forall i :: 0 <= i < |levels| ==> levels[i].res > 0.0
  }

  /** What the scan compares: the first level against one resolution, the others against another. */
  function Compared(levels: seq<Rung>, first: real, others: real): (ratios: seq<real>)
    requires PositiveSizes(levels)
    ensures |ratios| == |levels|
  {
    seq(|levels|, i requires 0 <= i < |levels| => (if i == 0 then first else others) / levels[i].res)
  }

  /** The ratio is how many times the level's own resolution goes into the one it is compared with. */
  lemma RatioIs(levels: seq<Rung>, first: real, others: real, i: nat)
    requires PositiveSizes(levels) && i < |levels|
    ensures Compared(levels, first, others)[i] * levels[i].res == if i == 0 then first else others
  {
    assert Compared(levels, first, others)[i] == (if i == 0 then first else others) / levels[i].res;
  }

  /**
   * `resolution` is the square root that the source takes of `resolutionX * resolutionY`. The first
   * level is compared with `resolutionX`, as the source does.
   */
  method BestLevel(levels: seq<Rung>, resolutionX: real, resolution: real, onDemand: bool)
    returns (id: string)
    requires |levels| > 0 && PositiveSizes(levels)
    ensures var ratios := Compared(levels, resolutionX, resolution);
      exists k: nat :: IsBest(ratios, k) && (!onDemand || 0.8 <= ratios[k] <= 1.8 ==> id == levels[k].id)
    ensures onDemand ==>
      var ratios := Compared(levels, resolutionX, resolution);
      && ((forall i :: 0 <= i < |levels| ==> levels[i].id != "") ==>
            (id != "" <==> exists i :: 0 <= i < |ratios| && 0.8 <= ratios[i] <= 1.8))
      && ((forall i :: 0 <= i < |ratios| ==> !(0.8 <= ratios[i] <= 1.8)) ==> id == "")
  {
    ghost var ratios := Compared(levels, resolutionX, resolution);
    var bestH, best := levels[0].id, resolutionX / levels[0].res;
    ghost var k := 0;
    var i := 1;
    while i < |levels|
      invariant 1 <= i <= |levels|
      invariant IsBestOf(ratios, i, k)
      invariant best == ratios[k] && bestH == levels[k].id
    {
      var d := resolution / levels[i].res;
      if (best < LOW && d > best) || (best >= LOW && d >= LOW && d < best) {
        best, bestH, k := d, levels[i].id, i;
      }
      i := i + 1;
    }
    if onDemand {
      id := if best <= HIGH && best >= LOW then bestH else "";
    } else {
      id := bestH;
    }
    assert IsBest(ratios, k) && (!onDemand || 0.8 <= ratios[k] <= 1.8 ==> id == levels[k].id);
    OnDemandFindsWhatExists(ratios, k);
  }

  /** Whatever the order of the levels, all best ones have the same ratio. */
  lemma OrderDoesNotMatter(p: seq<real>, j: nat, q: seq<real>, k: nat)
    requires IsBest(p, j) && IsBest(q, k)
    requires (forall i :: 0 <= i < |p| ==> p[i] in q) && (forall m :: 0 <= m < |q| ==> q[m] in p)
    ensures p[j] == q[k]
  {
    var m :| 0 <= m < |q| && p[j] == q[m];
    var i :| 0 <= i < |p| && p[i] == q[k];
    assert q[m] >= LOW ==> q[k] >= LOW;
    assert p[i] >= LOW ==> p[j] >= LOW;
  }

  lemma RatioElsewhere(p: seq<Rung>, q: seq<Rung>, i: nat, resolution: real)
    requires PositiveSizes(p) && PositiveSizes(q) && i < |p| && p[i] in q
    ensures Compared(p, resolution, resolution)[i] in Compared(q, resolution, resolution)
  {
    var m :| 0 <= m < |q| && q[m] == p[i];
    assert Compared(p, resolution, resolution)[i] == Compared(q, resolution, resolution)[m];
  }

  lemma RatiosElsewhere(p: seq<Rung>, q: seq<Rung>, resolution: real)
    requires PositiveSizes(p) && PositiveSizes(q) && forall i :: 0 <= i < |p| ==> p[i] in q
    ensures var ratios := Compared(p, resolution, resolution);
      forall i :: 0 <= i < |p| ==> ratios[i] in Compared(q, resolution, resolution)
  {
    forall i | 0 <= i < |p|
      ensures Compared(p, resolution, resolution)[i] in Compared(q, resolution, resolution)
    {
      RatioElsewhere(p, q, i, resolution);
    }
  }

  /** In whatever order a pyramid lists its levels, the best one has the same ratio. */
  lemma LevelOrderDoesNotMatter(p: seq<Rung>, j: nat, q: seq<Rung>, k: nat, resolution: real)
    requires PositiveSizes(p) && PositiveSizes(q)
    requires (forall i :: 0 <= i < |p| ==> p[i] in q) && (forall m :: 0 <= m < |q| ==> q[m] in p)
    requires IsBest(Compared(p, resolution, resolution), j) && IsBest(Compared(q, resolution, resolution), k)
    ensures Compared(p, resolution, resolution)[j] == Compared(q, resolution, resolution)[k]
  {
    RatiosElsewhere(p, q, resolution);
    RatiosElsewhere(q, p, resolution);
    OrderDoesNotMatter(Compared(p, resolution, resolution), j, Compared(q, resolution, resolution), k);
  }

  /** The on-demand form answers with a level exactly when some level is good enough. */
  lemma OnDemandFindsWhatExists(ratios: seq<real>, k: nat)
    requires IsBest(ratios, k)
    ensures 0.8 <= ratios[k] <= 1.8 <==> exists i :: 0 <= i < |ratios| && 0.8 <= ratios[i] <= 1.8
  {
    if i :| 0 <= i < |ratios| && InRange(ratios[i]) {
      assert ratios[k] >= LOW;
    }
  }

  /** Whatever the levels, the best of the compared ratios is a best of the true ratios. */
  ghost predicate AlwaysTheBest(first: real, others: real) {
    forall levels: seq<Rung>, k: nat :: PositiveSizes(levels) && IsBest(Compared(levels, first, others), k)
      ==> IsBest(Compared(levels, others, others), k)
  }

  /** A ratio that a first ratio of `skewed` instead of 1 is wrongly compared with. */
  function Between(skewed: real): real {
    if skewed < LOW then (skewed + LOW) / 2.0 else (1.0 + skewed) / 2.0
  }

  lemma BetweenIsMisjudged(skewed: real, k: nat)
    requires skewed > 0.0 && skewed != 1.0
    ensures IsBest([skewed, Between(skewed)], k) ==> !IsBest([1.0, Between(skewed)], k)
    ensures IsBest([skewed, Between(skewed)], if skewed < 1.0 && skewed >= LOW then 0 else 1)
  {
    var ratios, truth := [skewed, Between(skewed)], [1.0, Between(skewed)];
    assert ratios[0] == skewed && ratios[1] == Between(skewed);
    assert truth[0] == 1.0 && truth[1] == Between(skewed);
  }

  lemma QuotientOfQuotient(a: real, b: real)
    requires a > 0.0 && b > 0.0
    ensures a / b > 0.0 && a / (a / b) == b
  {
    assert (a / b) * b == a;
  }

  /** Two levels between which a wrong first resolution makes the scan choose the wrong one. */
  lemma Trap(first: real, others: real) returns (levels: seq<Rung>)
    requires first > 0.0 && others > 0.0
    ensures PositiveSizes(levels)
    ensures first / others > 0.0
    ensures Compared(levels, first, others) == [first / others, Between(first / others)]
    ensures Compared(levels, others, others) == [1.0, Between(first / others)]
  {
    QuotientOfQuotient(first, others);
    var between := Between(first / others);
    QuotientOfQuotient(others, between);
    levels := [Rung("0", others), Rung("1", others / between)];
    assert others / others == 1.0;
  }

  /** Only when the two differ does `first / others` differ from 1. */
  lemma RatioOne(first: real, others: real)
    requires others > 0.0 && first / others == 1.0
    ensures first == others
  {
  }

  /**
   * The first level is compared with the x resolution alone, so the scan returns a best level of
   * every pyramid exactly when both resolutions are equal.
   */
  lemma AlwaysTheBestIffSquare(resolutionX: real, resolutionY: real, resolution: real)
    requires resolutionX > 0.0 && resolutionY > 0.0 && resolution > 0.0
    requires resolution * resolution == resolutionX * resolutionY
    ensures AlwaysTheBest(resolutionX, resolution) <==> resolutionX == resolutionY
  {
    SquareRootIsTheSide(resolutionX, resolutionY, resolution);
    if resolutionX != resolution {
      var trap := Trap(resolutionX, resolution);
      var skewed := resolutionX / resolution;
      if skewed == 1.0 {
        RatioOne(resolutionX, resolution);
        assert false;
      }
      var k := if skewed < 1.0 && skewed >= LOW then 0 else 1;
      BetweenIsMisjudged(skewed, k);
    }
  }

  lemma SquareRootIsTheSide(x: real, y: real, root: real)
    requires x > 0.0 && y > 0.0 && root > 0.0 && root * root == x * y
    ensures x == root <==> x == y
  {
    if x == root {
      assert x * (x - y) == 0.0;
    }
    if x == y {
      assert (root - x) * (root + x) == 0.0;
    }
  }

  // ----- the highest, the lowest and the only level -----

  function Power2(n: nat): (p: real)
    ensures p >= 1.0
  {
    if n == 0 then 1.0 else 2.0 * Power2(n - 1)
  }

  /** The smallest and the largest normal `double`. */
  const DBL_MIN := 1.0 / Power2(1022)
  const DBL_MAX := (2.0 - 1.0 / Power2(52)) * Power2(1023)

  lemma {:induction false} PowersMultiply(m: nat, n: nat)
    ensures Power2(m + n) == Power2(m) * Power2(n) && Power2(1) == 2.0
  {
    if m > 0 {
      PowersMultiply(m - 1, n);
    }
  }

  type Levels = map<string, Level>

  predicate KeyedById(levels: Levels) {
    forall id :: id in levels ==> levels[id].id == id
  }

  predicate Holds(levels: Levels, l: Level) {
    l.id in levels && levels[l.id] == l
  }

  class Pyramid {
    var levels: Levels
    var highestLevel: Level?
    var lowestLevel: Level?
    const isBasedPyramid: bool

    /**
     * The levels are visited in some order; the highest is one of largest resolution, the lowest one of
     * smallest. Resolutions up to `DBL_MIN` are never the highest, from `DBL_MAX` on never the lowest.
     */
    constructor (levels: Levels, isBasedPyramid: bool)
      requires KeyedById(levels)
      ensures this.levels == levels && this.isBasedPyramid == isBasedPyramid
      ensures highestLevel == null ==> forall id :: id in levels ==> levels[id].res <= DBL_MIN
      ensures highestLevel != null ==>
        && highestLevel.id in levels && levels[highestLevel.id] == highestLevel && highestLevel.res > DBL_MIN
        && forall id :: id in levels ==> levels[id].res <= highestLevel.res
      ensures lowestLevel == null ==> forall id :: id in levels ==> levels[id].res >= DBL_MAX
      ensures lowestLevel != null ==>
        && lowestLevel.id in levels && levels[lowestLevel.id] == lowestLevel && lowestLevel.res < DBL_MAX
        && forall id :: id in levels ==> levels[id].res >= lowestLevel.res
    {
      this.levels, this.isBasedPyramid := levels, isBasedPyramid;
      highestLevel, lowestLevel := null, null;
      new;
      var minRes, maxRes := DBL_MAX, DBL_MIN;
      var left := levels.Keys;
      while left != {}
        invariant left <= levels.Keys
        invariant this.levels == levels
        invariant maxRes == if highestLevel == null then DBL_MIN else highestLevel.res
        invariant minRes == if lowestLevel == null then DBL_MAX else lowestLevel.res
        invariant highestLevel != null ==> Holds(levels, highestLevel) && maxRes > DBL_MIN
        invariant lowestLevel != null ==> Holds(levels, lowestLevel) && minRes < DBL_MAX
        invariant forall id :: id in levels && id !in left ==> minRes <= levels[id].res <= maxRes
      {
        var id :| id in left;
        var d := levels[id].res;
        if minRes > d {
          minRes, lowestLevel := d, levels[id];
        }
        if maxRes < d {
          maxRes, highestLevel := d, levels[id];
        }
        left := left - {id};
      }
    }

    method RemoveLevel(id: string)
      requires id in levels
      modifies `levels
      ensures levels == old(levels) - {id}
    {
      levels := levels - {id};
    }

    /** The unique level is set, or unset when the pyramid does not have it. */
    method SetUniqueLevel(id: string)
      modifies `highestLevel, `lowestLevel
      ensures id in levels ==> highestLevel == lowestLevel == levels[id]
      ensures id !in levels ==> highestLevel == lowestLevel == null
    {
      if id !in levels {
        highestLevel, lowestLevel := null, null;
        return;
      }
      highestLevel, lowestLevel := levels[id], levels[id];
    }

    function GetUniqueLevel(): Level?
      reads this
    {
      if isBasedPyramid then highestLevel else null
    }

    /** All levels but `best` are listed, then removed one by one. */
    method KeepOnly(best: Level)
      requires KeyedById(levels) && Holds(levels, best)
      modifies this
      ensures levels == map[best.id := best]
      ensures highestLevel == lowestLevel == best
    {
      ghost var all := levels;
      var toDelete := levels.Keys - {best.id};
      while toDelete != {}
        invariant Holds(levels, best)
        invariant levels.Keys == toDelete + {best.id} && best.id !in toDelete
      {
        var id :| id in toDelete;
        RemoveLevel(id);
        toDelete := toDelete - {id};
      }
      assert levels == map[best.id := best];
      SetUniqueLevel(best.id);
    }
  }

  // ----- the pyramid that a level on demand is made from -----

  /** Ratio `i` is good enough and belongs to a level of the pyramid. */
  predicate Suits(levels: Levels, ratio: Ratio) { 0.8 <= ratio.value <= 1.8 && ratio.id in levels }

  /**
   * The end of `buildBasedPyramid`: the first ratio that suits names the level that is kept. When
   * none suits the source deletes the pyramid, which is not kept here either.
   */
  method BuildBasedPyramid(pyramid: Pyramid, ratios: seq<Ratio>) returns (found: bool, ghost k: nat)
    requires KeyedById(pyramid.levels)
    modifies pyramid
    ensures found <==> exists i :: 0 <= i < |ratios| && Suits(old(pyramid.levels), ratios[i])
    ensures !found ==> pyramid.levels == old(pyramid.levels)
    ensures found ==> k < |ratios| && Suits(old(pyramid.levels), ratios[k])
    ensures found ==> forall i :: 0 <= i < k ==> !Suits(old(pyramid.levels), ratios[i])
    ensures found ==> pyramid.levels == map[ratios[k].id := old(pyramid.levels)[ratios[k].id]]
    ensures found ==> pyramid.highestLevel == pyramid.lowestLevel == pyramid.levels[ratios[k].id]
    ensures found ==>
      pyramid.GetUniqueLevel() == if pyramid.isBasedPyramid then old(pyramid.levels)[ratios[k].id] else null
  {
    var bestLevel: Level? := null;
    var i := 0;
    k := 0;
    while i < |ratios|
      invariant 0 <= i <= |ratios|
      invariant bestLevel == null
      invariant forall j :: 0 <= j < i ==> !Suits(pyramid.levels, ratios[j])
    {
      if !(ratios[i].value < LOW || ratios[i].value > HIGH) {
        bestLevel := if ratios[i].id in pyramid.levels then pyramid.levels[ratios[i].id] else null;
        if bestLevel != null {
          k := i;
          break;
        }
      }
      i := i + 1;
    }
    if bestLevel == null {
      return false, k;
    }
    pyramid.KeepOnly(bestLevel);
    found := true;
  }

  /** `ratios` lists the true ratio of each level of the pyramid, and maybe of others. */
  ghost predicate RatiosOf(levels: Levels, rungs: seq<Rung>, ratios: seq<Ratio>, resolution: real)
    requires PositiveSizes(rungs)
  {
    && (forall i :: 0 <= i < |rungs| ==> rungs[i].id in levels)
    && (forall i :: 0 <= i < |rungs| ==> Ratio(rungs[i].id, resolution / rungs[i].res) in ratios)
    && (forall j :: 0 <= j < |ratios| && ratios[j].id in levels ==>
          exists i :: 0 <= i < |rungs| && Ratio(rungs[i].id, resolution / rungs[i].res) == ratios[j])
  }

  /**
   * On the same ratios, `buildBasedPyramid` finds a level exactly when the on-demand form of
   * `best_level` would have found one.
   */
  lemma BothFindOrNeither(levels: Levels, rungs: seq<Rung>, ratios: seq<Ratio>, resolution: real, k: nat)
    requires PositiveSizes(rungs) && RatiosOf(levels, rungs, ratios, resolution)
    requires IsBest(Compared(rungs, resolution, resolution), k)
    ensures 0.8 <= Compared(rungs, resolution, resolution)[k] <= 1.8
      <==> exists j :: 0 <= j < |ratios| && Suits(levels, ratios[j])
  {
    var compared := Compared(rungs, resolution, resolution);
    OnDemandFindsWhatExists(compared, k);
    if i :| 0 <= i < |compared| && InRange(compared[i]) {
      var j :| 0 <= j < |ratios| && ratios[j] == Ratio(rungs[i].id, resolution / rungs[i].res);
      assert Suits(levels, ratios[j]);
    }
    if j :| 0 <= j < |ratios| && Suits(levels, ratios[j]) {
      var i :| 0 <= i < |rungs| && Ratio(rungs[i].id, resolution / rungs[i].res) == ratios[j];
      assert InRange(compared[i]);
    }
  }
}
