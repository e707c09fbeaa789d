/**
 The aggregates of the profile panel: per-category unlocked and total counts
 (with categories that have nothing unlocked dropped), the level derived from
 the XP total, and the width of the within-level progress bar.
 */
module Stats {
  import opened Types
  import opened Tree
  import opened Progress

  /** The category values in enumeration order. */
  const AllCategories: seq<Category> := [General, Academic, Exploration, Social]

  /** One slice of the completion chart: unlocked count `value` out of `total`. */
  datatype CategoryStat = CategoryStat(name: Category, value: nat, total: nat)

  /** The number of catalog entries in the category. */
  function CountInCategory(c: seq<Achievement>, cat: Category): nat
  {
    if |c| == 0 then 0
    else (if c[0].category == cat then 1 else 0) + CountInCategory(c[1..], cat)
  }

  /** The number of catalog entries in the category whose id is unlocked. */
  function CountUnlockedInCategory(c: seq<Achievement>, cat: Category, unlockedIds: seq<string>): (n: nat)
    ensures n <= CountInCategory(c, cat)
    ensures n == 0 <==> forall j :: 0 <= j < |c| && c[j].category == cat ==> c[j].id !in unlockedIds
  {
    if |c| == 0 then 0
    else
      assert forall j :: 1 <= j < |c| ==> c[j] == c[1..][j - 1];
      (if c[0].category == cat && c[0].id in unlockedIds then 1 else 0)
      + CountUnlockedInCategory(c[1..], cat, unlockedIds)
  }

  function StatOf(c: seq<Achievement>, p: UserProgress, cat: Category): CategoryStat
  {
    CategoryStat(cat, CountUnlockedInCategory(c, cat, p.unlockedIds), CountInCategory(c, cat))
  }

  /** One entry per category, before any is dropped. */
  function AllStats(c: seq<Achievement>, p: UserProgress): (stats: seq<CategoryStat>)
    ensures |stats| == |AllCategories|
    ensures forall k :: 0 <= k < |stats| ==> stats[k].name == AllCategories[k]
    ensures forall k :: 0 <= k < |stats| ==> stats[k].value <= stats[k].total
  {
    seq(|AllCategories|, k requires 0 <= k < |AllCategories| => StatOf(c, p, AllCategories[k]))
  }

  /** The entries with something unlocked, in their original order. */
  function KeepPositive(stats: seq<CategoryStat>): (r: seq<CategoryStat>)
    ensures forall s :: s in r <==> s in stats && s.value > 0
    ensures IsSubsequence(r, stats)
  {
    if |stats| == 0 then []
    else if stats[0].value > 0 then [stats[0]] + KeepPositive(stats[1..])
    else
      var rest := KeepPositive(stats[1..]);
      assert |rest| > 0 ==> rest[0] in rest && rest[0] != stats[0];
      rest
  }

  /** The data of the completion chart. */
  function CategoryStats(c: seq<Achievement>, p: UserProgress): seq<CategoryStat>
  {
    KeepPositive(AllStats(c, p))
  }

  /** Every chart entry has a positive count, never above its category's total, and keeps enumeration order. */
  lemma ChartEntriesBounded(c: seq<Achievement>, p: UserProgress)
    ensures forall s :: s in CategoryStats(c, p) ==> 0 < s.value <= s.total
    ensures IsSubsequence(CategoryStats(c, p), AllStats(c, p))
  {
  }

  /** A category is dropped from the chart exactly when none of its entries is unlocked. */
  lemma CategoryShownIff(c: seq<Achievement>, p: UserProgress, cat: Category)
    ensures (exists s :: s in CategoryStats(c, p) && s.name == cat) <==>
            exists j :: 0 <= j < |c| && c[j].category == cat && c[j].id in p.unlockedIds
  {
    var all := AllStats(c, p);
    var k := if cat == General then 0 else if cat == Academic then 1 else if cat == Exploration then 2 else 3;
    assert all[k].name == cat;
    if exists s :: s in CategoryStats(c, p) && s.name == cat {
      var s :| s in CategoryStats(c, p) && s.name == cat;
      assert s in all;
    }
    if exists j :: 0 <= j < |c| && c[j].category == cat && c[j].id in p.unlockedIds {
      assert all[k] in all && all[k].value > 0;
    }
  }

  function SumTotals(stats: seq<CategoryStat>): nat
  {
    if |stats| == 0 then 0 else stats[0].total + SumTotals(stats[1..])
  }

  lemma {:induction false} CategoryCountsCover(c: seq<Achievement>)
    ensures CountInCategory(c, General) + CountInCategory(c, Academic)
          + CountInCategory(c, Exploration) + CountInCategory(c, Social) == |c|
  {
    if |c| > 0 {
      CategoryCountsCover(c[1..]);
    }
  }

  /** The categories' totals add up to the catalog size: each entry lies in exactly one category. */
  lemma TotalsCoverCatalog(c: seq<Achievement>, p: UserProgress)
    ensures SumTotals(AllStats(c, p)) == |c|
  {
    var all := AllStats(c, p);
    CategoryCountsCover(c);
    assert all[1..][1..][1..][1..] == [];
    assert SumTotals(all[1..][1..][1..]) == all[3].total;
    assert SumTotals(all[1..][1..]) == all[2].total + all[3].total;
    assert SumTotals(all) == all[0].total + all[1].total + all[2].total + all[3].total;
  }

  function SumValues(stats: seq<CategoryStat>): nat
  {
    if |stats| == 0 then 0 else stats[0].value + SumValues(stats[1..])
  }

  /** The number of catalog entries whose id is unlocked, in any category. */
  function CountUnlocked(c: seq<Achievement>, unlockedIds: seq<string>): nat
  {
    if |c| == 0 then 0
    else (if c[0].id in unlockedIds then 1 else 0) + CountUnlocked(c[1..], unlockedIds)
  }

  /** The number of catalog entries with the given id. */
  function CountId(c: seq<Achievement>, id: string): nat
  {
    if |c| == 0 then 0 else (if c[0].id == id then 1 else 0) + CountId(c[1..], id)
  }

  lemma {:induction false} DroppingZerosKeepsSum(stats: seq<CategoryStat>)
    ensures SumValues(KeepPositive(stats)) == SumValues(stats)
  {
    if |stats| > 0 {
      DroppingZerosKeepsSum(stats[1..]);
    }
  }

  lemma {:induction false} CategoryValuesCover(c: seq<Achievement>, u: seq<string>)
    ensures CountUnlockedInCategory(c, General, u) + CountUnlockedInCategory(c, Academic, u)
          + CountUnlockedInCategory(c, Exploration, u) + CountUnlockedInCategory(c, Social, u) == CountUnlocked(c, u)
  {
    if |c| > 0 {
      CategoryValuesCover(c[1..], u);
    }
  }

  lemma {:induction false} CountUnlockedSnoc(c: seq<Achievement>, u: seq<string>, id: string)
    requires id !in u
    ensures CountUnlocked(c, u + [id]) == CountUnlocked(c, u) + CountId(c, id)
  {
    if |c| > 0 {
      CountUnlockedSnoc(c[1..], u, id);
    }
  }

  lemma {:induction false} CountIdOfDistinct(c: seq<Achievement>, id: string)
    requires DistinctIds(c)
    requires exists j :: 0 <= j < |c| && c[j].id == id
    ensures CountId(c, id) == 1
  {
    var j :| 0 <= j < |c| && c[j].id == id;
    if j == 0 {
      CountIdAbsent(c[1..], id);
    } else {
      assert c[1..][j - 1].id == id;
      CountIdOfDistinct(c[1..], id);
    }
  }

  lemma {:induction false} CountIdAbsent(c: seq<Achievement>, id: string)
    requires forall j :: 0 <= j < |c| ==> c[j].id != id
    ensures CountId(c, id) == 0
  {
    if |c| > 0 {
      CountIdAbsent(c[1..], id);
    }
  }

  /** With distinct catalog ids, unlocked ids that are distinct and all known are counted once each. */
  lemma {:induction false} CountUnlockedOfKnown(c: seq<Achievement>, u: seq<string>)
    requires DistinctIds(c)
    requires NoDuplicates(u) && AllKnown(c, u)
    ensures CountUnlocked(c, u) == |u|
    decreases |u|
  {
    if |u| == 0 {
      CountUnlockedNone(c);
    } else {
      var front := u[..|u| - 1];
      var last := u[|u| - 1];
      assert u == front + [last];
      assert last !in front;
      CountUnlockedOfKnown(c, front);
      CountUnlockedSnoc(c, front, last);
      assert Find(c, last).Some?;
      CountIdOfDistinct(c, last);
    }
  }

  lemma {:induction false} CountUnlockedNone(c: seq<Achievement>)
    ensures CountUnlocked(c, []) == 0
  {
    if |c| > 0 {
      CountUnlockedNone(c[1..]);
    }
  }

  /**
   In every reachable state the chart's slices add up to the number of
   unlocked ids, the count the panel prints beside the catalog size.
   */
  lemma ChartAddsUpToUnlockedCount(c: seq<Achievement>, p: UserProgress)
    requires DistinctIds(c)
    requires Valid(c, p)
    ensures SumValues(CategoryStats(c, p)) == |p.unlockedIds|
  {
    var all := AllStats(c, p);
    DroppingZerosKeepsSum(all);
    CategoryValuesCover(c, p.unlockedIds);
    assert all[1..][1..][1..][1..] == [];
    assert SumValues(all[1..][1..][1..]) == all[3].value;
    assert SumValues(all[1..][1..]) == all[2].value + all[3].value;
    assert SumValues(all) == all[0].value + all[1].value + all[2].value + all[3].value;
    CountUnlockedOfKnown(c, p.unlockedIds);
  }

  /** The level shown on the profile: one more than the whole hundreds of XP, rounded down. */
  function Level(totalXp: int): (level: int)
    ensures (level - 1) * 100 <= totalXp < level * 100
    ensures totalXp >= 0 ==> level >= 1
  {
    totalXp / 100 + 1
  }

  /** JavaScript's `a % 100`: the remainder truncates toward zero, so it takes the sign of `a`. */
  function JsRemainder100(a: int): (r: int)
    ensures a >= 0 ==> 0 <= r < 100
    ensures a < 0 ==> -100 < r <= 0
    ensures (a - r) % 100 == 0
  {
    if a >= 0 then a % 100 else -((-a) % 100)
  }

  /** The filled percentage of the level bar. */
  function LevelBarWidth(totalXp: int): (w: int)
    ensures totalXp >= 0 ==> 0 <= w < 100
    ensures totalXp >= 0 ==> totalXp == (Level(totalXp) - 1) * 100 + w
  {
    JsRemainder100(totalXp)
  }

  /** More XP never means a lower level. */
  lemma LevelMonotone(x: int, y: int)
    requires x <= y
    ensures Level(x) <= Level(y)
  {
  }

  /** The level and the bar width together determine the XP total. */
  lemma LevelAndBarDetermineXp(x: int, y: int)
    requires x >= 0 && y >= 0
    requires Level(x) == Level(y) && LevelBarWidth(x) == LevelBarWidth(y)
    ensures x == y
  {
  }

  /** Sample levels: 0 and 99 XP give 1, 100 gives 2, 250 gives 3. */
  lemma LevelExamples()
    ensures Level(0) == 1 && Level(99) == 1 && Level(100) == 2 && Level(250) == 3
    ensures LevelBarWidth(250) == 50
  {
  }

  /** With non-negative rewards an unlock request never lowers the level. */
  lemma LevelNeverDropsOnUnlock(c: seq<Achievement>, p: UserProgress, id: string)
    requires forall j :: 0 <= j < |c| ==> c[j].xp >= 0
    ensures Level(p.totalXp) <= Level(Unlock(c, p, id).progress.totalXp)
  {
    LevelMonotone(p.totalXp, Unlock(c, p, id).progress.totalXp);
  }
}
