/**
 The unlock transition over a user's progress and the invariants it keeps:
 no id is unlocked twice, every unlocked node's parent is unlocked, every
 unlocked id names a catalog entry, and the incrementally maintained XP total
 equals the sum of the unlocked entries' XP.
 */
module Progress {
  import opened Types
  import opened Tree

  /** Every session starts with only the root unlocked and no XP. */
  const InitialProgress: UserProgress := UserProgress(["nus_start"], 0)

  /** How an unlock request ended. `ParentLocked` is the rejection the user is told about. */
  datatype Outcome = UnknownId | AlreadyUnlocked | ParentLocked | Unlocked

  datatype UnlockResult = UnlockResult(progress: UserProgress, outcome: Outcome)

  /**
   The unlock request for `id` against progress `p`. A request that is not
   accepted leaves the progress as it was; an accepted one appends the id and
   adds its reward, and changes nothing else.
   */
  function Unlock(c: seq<Achievement>, p: UserProgress, id: string): (r: UnlockResult)
    ensures r.outcome != Unlocked ==> r.progress == p
    ensures r.outcome == Unlocked ==>
              id !in p.unlockedIds && r.progress == UserProgress(p.unlockedIds + [id], p.totalXp + XpOf(c, id))
  {
    match Find(c, id)
    case None => UnlockResult(p, UnknownId)
    case Some(a) =>
      if id in p.unlockedIds then UnlockResult(p, AlreadyUnlocked)
      else if !IsParentUnlocked(p.unlockedIds, a) then UnlockResult(p, ParentLocked)
      else UnlockResult(UserProgress(p.unlockedIds + [id], p.totalXp + a.xp), Unlocked)
  }

  /**
   Which outcome a request has: an id with no catalog entry is ignored, an id
   already unlocked is a silent no-op rather than a rejection, a known locked
   id whose node is hidden (its parent locked) is rejected, and every other
   request is accepted.
   */
  lemma UnlockOutcomes(c: seq<Achievement>, p: UserProgress, id: string)
    ensures Unlock(c, p, id).outcome == UnknownId <==> forall j :: 0 <= j < |c| ==> c[j].id != id
    ensures Unlock(c, p, id).outcome == AlreadyUnlocked <==>
              (exists j :: 0 <= j < |c| && c[j].id == id) && id in p.unlockedIds
    ensures Unlock(c, p, id).outcome == ParentLocked <==>
              Find(c, id).Some? && id !in p.unlockedIds && !CanSee(p.unlockedIds, Find(c, id).value)
    ensures Unlock(c, p, id).outcome == Unlocked <==>
              Find(c, id).Some? && id !in p.unlockedIds && IsParentUnlocked(p.unlockedIds, Find(c, id).value)
  {
  }

  /** The XP an id is worth: its first catalog entry's XP, or nothing for an unknown id. */
  function XpOf(c: seq<Achievement>, id: string): int
  {
    match Find(c, id)
    case None => 0
    case Some(a) => a.xp
  }

  /** The XP of the ids, summed afresh. */
  function XpSum(c: seq<Achievement>, ids: seq<string>): int
  {
    if |ids| == 0 then 0 else XpSum(c, ids[..|ids| - 1]) + XpOf(c, ids[|ids| - 1])
  }

  predicate NoDuplicates(ids: seq<string>)
  {
    forall i, j :: 0 <= i < j < |ids| ==> ids[i] != ids[j]
  }

  predicate AllKnown(c: seq<Achievement>, ids: seq<string>)
  {
    forall x :: x in ids ==> Find(c, x).Some?
  }

  /** The unlocked ids are closed under the parent relation. */
  predicate ParentClosed(c: seq<Achievement>, ids: seq<string>)
  {
    forall x :: x in ids && Find(c, x).Some? ==> IsParentUnlocked(ids, Find(c, x).value)
  }

  /** The invariant of every progress value a session can reach. */
  predicate Valid(c: seq<Achievement>, p: UserProgress)
  {
    && NoDuplicates(p.unlockedIds)
    && AllKnown(c, p.unlockedIds)
    && ParentClosed(c, p.unlockedIds)
    && p.totalXp == XpSum(c, p.unlockedIds)
  }

  /** A single unlock request keeps the invariant, whatever its outcome. */
  lemma UnlockPreservesValid(c: seq<Achievement>, p: UserProgress, id: string)
    requires Valid(c, p)
    ensures Valid(c, Unlock(c, p, id).progress)
  {
    var r := Unlock(c, p, id);
    if r.outcome == Unlocked {
      var a := Find(c, id).value;
      assert id !in p.unlockedIds && IsParentUnlocked(p.unlockedIds, a);
      AppendKeepsValid(c, p, id);
    }
  }

  /** Appending a known, new id whose parent is unlocked keeps the invariant. */
  lemma AppendKeepsValid(c: seq<Achievement>, p: UserProgress, id: string)
    requires Valid(c, p)
    requires Find(c, id).Some? && id !in p.unlockedIds
    requires IsParentUnlocked(p.unlockedIds, Find(c, id).value)
    ensures Valid(c, UserProgress(p.unlockedIds + [id], p.totalXp + XpOf(c, id)))
  {
    var ids := p.unlockedIds;
    var ids' := ids + [id];
    assert ids'[..|ids'| - 1] == ids;
    assert NoDuplicates(ids') by {
      forall i, j | 0 <= i < j < |ids'| ensures ids'[i] != ids'[j] {
        if j == |ids| {
          assert ids'[i] == ids[i];
        } else {
          assert ids'[i] == ids[i] && ids'[j] == ids[j];
        }
      }
    }
    assert AllKnown(c, ids') by {
      forall x | x in ids' ensures Find(c, x).Some? {
        if x != id {
          assert x in ids;
        }
      }
    }
    assert ParentClosed(c, ids') by {
      forall x | x in ids' && Find(c, x).Some?
        ensures IsParentUnlocked(ids', Find(c, x).value)
      {
        if x != id {
          assert x in ids;
          ParentStaysUnlocked(ids, id, Find(c, x).value);
        } else {
          ParentStaysUnlocked(ids, id, Find(c, id).value);
        }
      }
    }
  }

  /** Unlocking more never hides a parent that was unlocked. */
  lemma ParentStaysUnlocked(ids: seq<string>, id: string, a: Achievement)
    requires IsParentUnlocked(ids, a)
    ensures IsParentUnlocked(ids + [id], a)
  {
    if ParentLink(a).Some? {
      assert ParentLink(a).value in ids;
    }
  }

  /** The progress after a series of unlock requests, made one after another. */
  function Run(c: seq<Achievement>, p: UserProgress, requests: seq<string>): UserProgress
    decreases |requests|
  {
    if |requests| == 0 then p else Run(c, Unlock(c, p, requests[0]).progress, requests[1..])
  }

  /** The invariant holds after any series of requests from a valid start. */
  lemma {:induction false} RunPreservesValid(c: seq<Achievement>, p: UserProgress, requests: seq<string>)
    requires Valid(c, p)
    ensures Valid(c, Run(c, p, requests))
    decreases |requests|
  {
    if |requests| > 0 {
      UnlockPreservesValid(c, p, requests[0]);
      RunPreservesValid(c, Unlock(c, p, requests[0]).progress, requests[1..]);
    }
  }

  /**
   Unlocking is one-way: earlier unlocks stay, in their order, and with
   non-negative rewards the total never drops.
   */
  lemma {:induction false} RunOnlyGrows(c: seq<Achievement>, p: UserProgress, requests: seq<string>)
    ensures |p.unlockedIds| <= |Run(c, p, requests).unlockedIds|
    ensures Run(c, p, requests).unlockedIds[..|p.unlockedIds|] == p.unlockedIds
    ensures (forall j :: 0 <= j < |c| ==> c[j].xp >= 0) ==> p.totalXp <= Run(c, p, requests).totalXp
    decreases |requests|
  {
    if |requests| > 0 {
      var q := Unlock(c, p, requests[0]).progress;
      RunOnlyGrows(c, q, requests[1..]);
      assert q.unlockedIds[..|p.unlockedIds|] == p.unlockedIds;
      assert Run(c, p, requests).unlockedIds[..|q.unlockedIds|][..|p.unlockedIds|]
          == Run(c, p, requests).unlockedIds[..|p.unlockedIds|];
    }
  }

  lemma {:induction false} XpSumCons(c: seq<Achievement>, id: string, ids: seq<string>)
    ensures XpSum(c, [id] + ids) == XpOf(c, id) + XpSum(c, ids)
    decreases |ids|
  {
    if |ids| > 0 {
      assert ([id] + ids)[..|ids|] == [id] + ids[..|ids| - 1];
      XpSumCons(c, id, ids[..|ids| - 1]);
    }
  }

  /** A request for `id` after `ids` are unlocked would be accepted. */
  predicate AcceptedAfter(c: seq<Achievement>, ids: seq<string>, id: string)
  {
    Find(c, id).Some? && id !in ids && IsParentUnlocked(ids, Find(c, id).value)
  }

  lemma UnlockAccepted(c: seq<Achievement>, p: UserProgress, id: string)
    requires AcceptedAfter(c, p.unlockedIds, id)
    ensures Unlock(c, p, id) == UnlockResult(UserProgress(p.unlockedIds + [id], p.totalXp + XpOf(c, id)), Unlocked)
  {
  }

  /**
   The requests follow the tree order from the unlocked ids `ids`: each names
   a catalog entry that is not yet unlocked and whose parent is unlocked by
   the time it is made.
   */
  predicate InTreeOrder(c: seq<Achievement>, ids: seq<string>, requests: seq<string>)
    decreases |requests|
  {
    |requests| == 0
    || (AcceptedAfter(c, ids, requests[0]) && InTreeOrder(c, ids + [requests[0]], requests[1..]))
  }

  /**
   A series of requests in tree order is accepted in full: the ids are
   appended in order and their XP added.
   */
  lemma {:induction false} RunInTreeOrder(c: seq<Achievement>, p: UserProgress, requests: seq<string>)
    requires InTreeOrder(c, p.unlockedIds, requests)
    ensures Run(c, p, requests) == UserProgress(p.unlockedIds + requests, p.totalXp + XpSum(c, requests))
    decreases |requests|
  {
    if |requests| > 0 {
      var r := requests[0];
      var rest := requests[1..];
      var q := UserProgress(p.unlockedIds + [r], p.totalXp + XpOf(c, r));
      UnlockAccepted(c, p, r);
      assert Run(c, p, requests) == Run(c, q, rest);
      RunInTreeOrder(c, q, rest);
      assert requests == [r] + rest;
      XpSumCons(c, r, rest);
      assert q.unlockedIds + rest == p.unlockedIds + requests;
    }
  }

  /** The ids of the catalog, in catalog order. */
  function IdsOf(c: seq<Achievement>): (ids: seq<string>)
    ensures |ids| == |c|
    ensures forall i :: 0 <= i < |c| ==> ids[i] == c[i].id
  {
    seq(|c|, i requires 0 <= i < |c| => c[i].id)
  }

  /** The XP of every catalog entry, summed. */
  function CatalogXp(c: seq<Achievement>): int
  {
    if |c| == 0 then 0 else CatalogXp(c[..|c| - 1]) + c[|c| - 1].xp
  }

  /** With distinct ids, summing the XP of the first `n` ids is summing the first `n` entries. */
  lemma {:induction false} XpSumOfCatalogIds(c: seq<Achievement>, n: nat)
    requires DistinctIds(c)
    requires n <= |c|
    ensures XpSum(c, IdsOf(c)[..n]) == CatalogXp(c[..n])
  {
    if n > 0 {
      var ids := IdsOf(c);
      XpSumOfCatalogIds(c, n - 1);
      assert ids[..n][..n - 1] == ids[..n - 1];
      assert c[..n][..n - 1] == c[..n - 1];
      FindIndexOfDistinct(c, n - 1);
      assert XpOf(c, ids[n - 1]) == c[n - 1].xp;
      assert XpSum(c, ids[..n]) == XpSum(c, ids[..n - 1]) + XpOf(c, ids[n - 1]);
      assert CatalogXp(c[..n]) == CatalogXp(c[..n - 1]) + c[n - 1].xp;
    }
  }

  /** A parent link of entry `i` exists and names an entry declared earlier. */
  predicate ParentDeclaredBefore(c: seq<Achievement>, i: nat)
    requires i < |c|
  {
    ParentLink(c[i]).Some? && FindIndex(c, ParentLink(c[i]).value).Some?
    && FindIndex(c, ParentLink(c[i]).value).value < i
  }

  lemma NextInCatalogOrderAccepted(c: seq<Achievement>, i: nat)
    requires DistinctIds(c)
    requires 0 < i < |c| && ParentDeclaredBefore(c, i)
    ensures AcceptedAfter(c, IdsOf(c)[..i], c[i].id)
  {
    var before := IdsOf(c)[..i];
    FindIndexOfDistinct(c, i);
    var j := FindIndex(c, ParentLink(c[i]).value).value;
    assert before[j] == c[j].id;
    assert c[i].id !in before by {
      forall m | 0 <= m < i ensures before[m] != c[i].id {
        assert before[m] == c[m].id;
      }
    }
  }

  /**
   On a catalog with distinct ids whose every entry after the first has a
   parent declared before it, starting from the first entry and requesting the
   rest in catalog order unlocks the whole catalog and earns all its XP.
   */
  lemma CatalogOrderUnlocksAll(c: seq<Achievement>)
    requires |c| > 0 && DistinctIds(c)
    requires forall i :: 0 < i < |c| ==> ParentDeclaredBefore(c, i)
    ensures Run(c, UserProgress([c[0].id], c[0].xp), IdsOf(c)[1..]) == UserProgress(IdsOf(c), CatalogXp(c))
  {
    var ids := IdsOf(c);
    var start := UserProgress([c[0].id], c[0].xp);
    CatalogSuffixInTreeOrder(c, 1);
    assert ids[..1] == start.unlockedIds;
    RunInTreeOrder(c, start, ids[1..]);
    FirstAndRest(c);
    assert start.unlockedIds + ids[1..] == ids;
    assert start.totalXp + XpSum(c, ids[1..]) == CatalogXp(c);
  }

  /** After the first `k` ids, the remaining ids follow the tree order. */
  lemma {:induction false} CatalogSuffixInTreeOrder(c: seq<Achievement>, k: nat)
    requires 0 < k <= |c| && DistinctIds(c)
    requires forall i :: 0 < i < |c| ==> ParentDeclaredBefore(c, i)
    ensures InTreeOrder(c, IdsOf(c)[..k], IdsOf(c)[k..])
    decreases |c| - k
  {
    var ids := IdsOf(c);
    if k < |c| {
      NextInCatalogOrderAccepted(c, k);
      CatalogSuffixInTreeOrder(c, k + 1);
      assert ids[k..][0] == ids[k];
      assert ids[..k] + [ids[k]] == ids[..k + 1];
      assert ids[k..][1..] == ids[k + 1..];
    }
  }

  lemma FirstAndRest(c: seq<Achievement>)
    requires |c| > 0 && DistinctIds(c)
    ensures [c[0].id] + IdsOf(c)[1..] == IdsOf(c)
    ensures c[0].xp + XpSum(c, IdsOf(c)[1..]) == CatalogXp(c)
  {
    var ids := IdsOf(c);
    assert ids == [c[0].id] + ids[1..];
    XpSumCons(c, c[0].id, ids[1..]);
    FindIndexOfDistinct(c, 0);
    XpSumOfCatalogIds(c, |c|);
    assert ids[..|c|] == ids && c[..|c|] == c;
  }

  /** Repeating a request changes nothing and is never a rejection. */
  lemma UnlockIdempotent(c: seq<Achievement>, p: UserProgress, id: string)
    ensures Unlock(c, Unlock(c, p, id).progress, id).progress == Unlock(c, p, id).progress
    ensures Unlock(c, p, id).outcome == Unlocked ==>
              Unlock(c, Unlock(c, p, id).progress, id).outcome == AlreadyUnlocked
  {
  }

  /**
   For the entry an id resolves to, visibility on the tree and acceptance of
   the request agree: a request is rejected exactly when the node is hidden,
   and a visible locked node is always unlocked by it.
   */
  lemma VisibleIffNotRejected(c: seq<Achievement>, p: UserProgress, i: nat)
    requires i < |c| && FindIndex(c, c[i].id) == Some(i)
    ensures Unlock(c, p, c[i].id).outcome == ParentLocked <==> !CanSee(p.unlockedIds, c[i])
    ensures CanSee(p.unlockedIds, c[i]) && !IsUnlocked(p.unlockedIds, c[i]) ==>
              Unlock(c, p, c[i].id).outcome == Unlocked
  {
  }

  /** A three-entry catalog: root R, A under R, B under A. */
  const ExampleCatalog: seq<Achievement> := [
    Achievement("R", None, "", "", "", Root, General, 100, 0),
    Achievement("A", Some("R"), "", "", "", Task, General, 50, 10),
    Achievement("B", Some("A"), "", "", "", Goal, General, 10, 50)
  ]

  /** The end-to-end example: B is refused first, then A and B succeed, and A again is a no-op. */
  lemma ExampleSession()
    ensures var p0 := UserProgress(["R"], 0);
            var r1 := Unlock(ExampleCatalog, p0, "B");
            var r2 := Unlock(ExampleCatalog, r1.progress, "A");
            var r3 := Unlock(ExampleCatalog, r2.progress, "B");
            var r4 := Unlock(ExampleCatalog, r3.progress, "A");
            && r1.outcome == ParentLocked && r1.progress == p0
            && r2.outcome == Unlocked && r2.progress == UserProgress(["R", "A"], 10)
            && r3.outcome == Unlocked && r3.progress == UserProgress(["R", "A", "B"], 60)
            && r4.outcome == AlreadyUnlocked && r4.progress == r3.progress
  {
    var c := ExampleCatalog;
    assert c[0].id == "R" && c[1].id == "A" && c[2].id == "B";
    assert "A" != "R" && "B" != "R" && "B" != "A";
    assert Find(c, "A") == Some(c[1]);
    assert Find(c, "B") == Some(c[2]);
  }
}
