/**
 The shipped achievement catalog and the integrity facts the rest of the
 application relies on: unique ids, a single root, parents declared before
 their children, non-negative rewards and in-range completion rates, and the
 depth of every node.
 */
module Catalog {
  import opened Types
  import opened Tree
  import opened Progress
  import opened Stats

  const Achievements: seq<Achievement> := [
    Achievement("nus_start", None, "Welcome to NUS",
      "Matriculate into the National University of Singapore.",
      "MapPin", Root, General, 100, 0),
    Achievement("first_lecture", Some("nus_start"), "Taking Notes",
      "Attend your first lecture without falling asleep.",
      "BookOpen", Task, Academic, 95, 10),
    Achievement("study_session", Some("first_lecture"), "Library Dweller",
      "Complete a continuous 10-hour study session in Central Library.",
      "Clock", Goal, Academic, 15, 50),
    Achievement("deans_list", Some("study_session"), "Top of the Class",
      "Get on the Dean's List for a semester.",
      "Trophy", Challenge, Academic, 5, 100),
    Achievement("utown_visit", Some("nus_start"), "Concrete Jungle",
      "Visit University Town (UTown) for the first time.",
      "Building", Task, Exploration, 98, 10),
    Achievement("all_faculties", Some("utown_visit"), "The Tourist",
      "Visit every single faculty campus (FASS, FOE, SOC, Science, etc.).",
      "Compass", Goal, Exploration, 30, 50),
    Achievement("bus_master", Some("all_faculties"), "Bus Captain",
      "Take every internal shuttle bus route (A1, A2, D1, D2, K, E, BTC) at least once.",
      "Bus", Goal, Exploration, 12, 75),
    Achievement("marathon", Some("bus_master"), "Iron Legs",
      "Run a full marathon distance accumulatively around the school campus.",
      "Footprints", Challenge, Exploration, 2, 150),
    Achievement("orientation", Some("nus_start"), "Ice Breaker",
      "Participate in a freshman orientation camp.",
      "Tent", Task, Social, 80, 20),
    Achievement("cc_activity", Some("orientation"), "Extra Curricular",
      "Join a CCA or Student Club.",
      "Users", Task, Social, 60, 30),
    Achievement("networker", Some("cc_activity"), "Mr. Worldwide",
      "Make friends with at least one person from every faculty.",
      "Globe", Challenge, Social, 1, 200)
  ]

  /**
   The id of each entry, in catalog order. This table and `ParentIndex` repeat
   what the literal above says, so that the integrity proofs can work on two
   short sequences instead of unfolding the long literal; `AchievementsShaped`
   ties them to it.
   */
  const IdTable: seq<string> := [
    "nus_start", "first_lecture", "study_session", "deans_list", "utown_visit", "all_faculties",
    "bus_master", "marathon", "orientation", "cc_activity", "networker"
  ]

  /** The catalog index of each entry's parent (-1 for the root). */
  const ParentIndex: seq<int> := [-1, 0, 1, 2, 0, 4, 5, 6, 0, 8, 9]

  /** The depth of each entry, in catalog order. */
  const DepthTable: seq<nat> := [0, 1, 2, 3, 1, 2, 3, 4, 1, 2, 3]

  /** The tables are consistent: parents come earlier and a child is one level below its parent. */
  lemma TablesAgree()
    ensures |IdTable| == |ParentIndex| == |DepthTable| == 11
    ensures DepthTable[0] == 0
    ensures forall i :: 1 <= i < |DepthTable| ==> 0 <= ParentIndex[i] < i && DepthTable[i] == DepthTable[ParentIndex[i]] + 1
  {
  }

  /** The table's deepest entry is index 7, alone at depth 4. */
  lemma DepthTableMaximum()
    ensures |DepthTable| == 11
    ensures forall i :: 0 <= i < |DepthTable| ==> DepthTable[i] <= 4 && (DepthTable[i] == 4 <==> i == 7)
  {
  }

  lemma NamedIds()
    ensures |IdTable| == 11
    ensures IdTable[0] == "nus_start" && IdTable[3] == "deans_list"
    ensures IdTable[7] == "marathon" && IdTable[10] == "networker"
  {
  }

  lemma IdTableDistinct()
    ensures forall i, j :: 0 <= i < j < |IdTable| ==> IdTable[i] != IdTable[j]
  {
  }

  /**
   The shape of the shipped catalog: eleven entries with the tabulated ids,
   no parent for the first and the tabulated parent for every other.
   */
  predicate Shaped(c: seq<Achievement>)
  {
    && |c| == 11
    && (forall i :: 0 <= i < |c| ==> c[i].id == IdTable[i])
    && ParentLink(c[0]).None?
    && (forall i :: 1 <= i < |c| ==> 0 <= ParentIndex[i] < i && ParentLink(c[i]) == Some(IdTable[ParentIndex[i]]))
  }

  lemma AchievementsShaped()
    ensures Shaped(Achievements)
  {
    AchievementIds();
    AchievementParents();
  }

  lemma AchievementIds()
    ensures |Achievements| == 11
    ensures forall i :: 0 <= i < |Achievements| ==> Achievements[i].id == IdTable[i]
  {
  }

  lemma AchievementParents()
    ensures |Achievements| == 11
    ensures ParentLink(Achievements[0]).None?
    ensures forall i :: 1 <= i < |Achievements| ==>
              0 <= ParentIndex[i] < i && ParentLink(Achievements[i]) == Some(IdTable[ParentIndex[i]])
  {
  }

  lemma ShapedDistinct(c: seq<Achievement>)
    requires Shaped(c)
    ensures DistinctIds(c)
  {
    IdTableDistinct();
  }

  lemma ShapedParentsResolve(c: seq<Achievement>)
    requires Shaped(c)
    ensures forall i :: 1 <= i < |c| ==>
              ParentLink(c[i]).Some? && FindIndex(c, ParentLink(c[i]).value) == Some(ParentIndex[i] as nat)
    ensures ParentsPrecede(c)
  {
    ShapedDistinct(c);
    forall i | 1 <= i < |c|
      ensures FindIndex(c, ParentLink(c[i]).value) == Some(ParentIndex[i] as nat)
    {
      FindIndexOfDistinct(c, ParentIndex[i] as nat);
    }
    assert ParentPrecedes(c, 0);
  }

  lemma {:induction false} ShapedDepthAt(c: seq<Achievement>, i: nat)
    requires Shaped(c) && ParentsPrecede(c)
    requires i < |c|
    ensures DepthAt(c, i) == DepthTable[i]
    decreases i
  {
    ShapedParentsResolve(c);
    TablesAgree();
    if i == 0 {
      assert ParentLink(c[0]).None?;
    } else {
      var j := ParentIndex[i] as nat;
      assert FindIndex(c, ParentLink(c[i]).value) == Some(j);
      ShapedDepthAt(c, j);
      assert DepthAt(c, i) == 1 + DepthAt(c, j);
    }
  }

  lemma ShapedDepths(c: seq<Achievement>)
    requires Shaped(c)
    ensures ParentsPrecede(c)
    ensures forall i :: 0 <= i < |c| ==> Depth(c, c[i].id) == DepthTable[i]
  {
    ShapedParentsResolve(c);
    ShapedDistinct(c);
    forall i | 0 <= i < |c|
      ensures Depth(c, c[i].id) == DepthTable[i]
    {
      FindIndexOfDistinct(c, i);
      ShapedDepthAt(c, i);
    }
  }

  lemma ShapedNamedDepths(c: seq<Achievement>)
    requires Shaped(c)
    ensures ParentsPrecede(c)
    ensures Depth(c, "marathon") == 4
    ensures Depth(c, "deans_list") == 3 && Depth(c, "networker") == 3
  {
    NamedIds();
    ShapedDepthOf(c, 7, "marathon");
    ShapedDepthOf(c, 3, "deans_list");
    ShapedDepthOf(c, 10, "networker");
  }

  lemma ShapedDepthOf(c: seq<Achievement>, i: nat, id: string)
    requires Shaped(c) && i < |c| && IdTable[i] == id
    ensures ParentsPrecede(c)
    ensures Depth(c, id) == DepthTable[i]
  {
    ShapedDepths(c);
    assert c[i].id == id;
  }

  lemma ShapedDepthBound(c: seq<Achievement>)
    requires Shaped(c)
    ensures ParentsPrecede(c)
    ensures forall i :: 0 <= i < |c| ==> Depth(c, c[i].id) <= 4
    ensures forall i :: 0 <= i < |c| && Depth(c, c[i].id) == 4 ==> c[i].id == "marathon"
  {
    ShapedDepths(c);
    DepthTableMaximum();
    NamedIds();
    forall i | 0 <= i < |c|
      ensures Depth(c, c[i].id) <= 4
      ensures Depth(c, c[i].id) == 4 ==> c[i].id == "marathon"
    {
      assert Depth(c, c[i].id) == DepthTable[i];
      if DepthTable[i] == 4 {
        assert i == 7;
        assert c[i].id == IdTable[7];
      }
    }
  }

  lemma ShapedNodeDepths(c: seq<Achievement>)
    requires Shaped(c)
    ensures ParentsPrecede(c)
    ensures forall i :: 0 <= i < |c| ==> NodesWithDepth(c)[i].depth == DepthTable[i]
  {
    ShapedDepths(c);
  }

  lemma ShapedMaxDepth(c: seq<Achievement>)
    requires Shaped(c)
    ensures ParentsPrecede(c)
    ensures MaxDepth(NodesWithDepth(c)) == 4
    ensures |Columns(NodesWithDepth(c))| == 5
  {
    ShapedNodeDepths(c);
    DepthTableMaximum();
    MaxDepthIs(NodesWithDepth(c), 7);
  }

  lemma ShapedLastColumn(c: seq<Achievement>)
    requires Shaped(c)
    ensures ParentsPrecede(c)
    ensures Column(NodesWithDepth(c), 4) == [NodesWithDepth(c)[7]]
    ensures NodesWithDepth(c)[7].achievement.id == "marathon"
  {
    ShapedNodeDepths(c);
    DepthTableMaximum();
    NamedIds();
    var nodes := NodesWithDepth(c);
    assert nodes[7].achievement.id == IdTable[7];
    assert nodes[7].depth == 4;
    forall j | 0 <= j < |nodes| && j != 7
      ensures nodes[j].depth != nodes[7].depth
    {
      assert nodes[j].depth == DepthTable[j];
    }
    ColumnOfUniqueDepth(nodes, 7);
  }

  /** No two entries share an id. */
  lemma IdsAreDistinct()
    ensures DistinctIds(Achievements)
  {
    AchievementsShaped();
    ShapedDistinct(Achievements);
  }

  /** The only entry without a parent is the first one, `nus_start`, of kind Root. */
  lemma SingleRoot()
    ensures forall i :: 0 <= i < |Achievements| ==> (ParentLink(Achievements[i]).None? <==> i == 0)
    ensures Achievements[0].id == "nus_start" && Achievements[0].kind == Root
  {
    AchievementsShaped();
  }

  /** Every parent id names an entry declared strictly earlier. */
  lemma ParentsResolveEarlier()
    ensures forall i :: 1 <= i < |Achievements| ==>
              ParentLink(Achievements[i]).Some?
              && FindIndex(Achievements, ParentLink(Achievements[i]).value) == Some(ParentIndex[i] as nat)
              && 0 <= ParentIndex[i] < i
    ensures ParentsPrecede(Achievements)
  {
    AchievementsShaped();
    ShapedParentsResolve(Achievements);
  }

  /** Rewards are never negative and the root grants none. */
  lemma RewardsNonNegative()
    ensures forall j :: 0 <= j < |Achievements| ==> Achievements[j].xp >= 0
    ensures Achievements[0].xp == 0
  {
  }

  /** Every completion rate is a percentage. */
  lemma CompletionRatesArePercentages()
    ensures forall j :: 0 <= j < |Achievements| ==> 0 <= Achievements[j].globalCompletionRate <= 100
  {
  }

  /** The session's starting point satisfies the progress invariant. */
  lemma InitialProgressValid()
    ensures Valid(Achievements, InitialProgress)
  {
    AchievementsShaped();
    ShapedInitialValid(Achievements);
  }

  lemma ShapedInitialValid(c: seq<Achievement>)
    requires Shaped(c) && c[0].xp == 0
    ensures Valid(c, InitialProgress)
  {
    ShapedDistinct(c);
    FindIndexOfDistinct(c, 0);
    assert Find(c, "nus_start") == Some(c[0]);
    assert XpSum(c, ["nus_start"]) == XpSum(c, []) + XpOf(c, "nus_start");
  }

  /** Whatever requests a session makes on the shipped catalog, the progress keeps the invariant. */
  lemma SessionsStayValid(requests: seq<string>)
    ensures Valid(Achievements, Run(Achievements, InitialProgress, requests))
  {
    InitialProgressValid();
    RunPreservesValid(Achievements, InitialProgress, requests);
  }

  /** The depth of every entry, as tabulated. */
  lemma DepthsAsTabulated()
    ensures ParentsPrecede(Achievements)
    ensures forall i :: 0 <= i < |Achievements| ==> Depth(Achievements, Achievements[i].id) == DepthTable[i]
  {
    AchievementsShaped();
    ShapedDepths(Achievements);
  }

  /** The deepest node is `marathon` alone at depth 4; `deans_list` and `networker` sit at depth 3. */
  lemma DeepestNodes()
    ensures ParentsPrecede(Achievements)
    ensures Depth(Achievements, "marathon") == 4
    ensures Depth(Achievements, "deans_list") == 3 && Depth(Achievements, "networker") == 3
    ensures forall i :: 0 <= i < |Achievements| ==> Depth(Achievements, Achievements[i].id) <= 4
    ensures forall i :: 0 <= i < |Achievements| && Depth(Achievements, Achievements[i].id) == 4 ==>
              Achievements[i].id == "marathon"
  {
    AchievementsShaped();
    ShapedNamedDepths(Achievements);
    ShapedDepthBound(Achievements);
  }

  /** The layout of the shipped catalog has five columns, the last holding `marathon` alone. */
  lemma FiveColumns()
    ensures ParentsPrecede(Achievements)
    ensures MaxDepth(NodesWithDepth(Achievements)) == 4
    ensures |Columns(NodesWithDepth(Achievements))| == 5
    ensures Column(NodesWithDepth(Achievements), 4) == [NodesWithDepth(Achievements)[7]]
    ensures NodesWithDepth(Achievements)[7].achievement.id == "marathon"
  {
    AchievementsShaped();
    ShapedMaxDepth(Achievements);
    ShapedLastColumn(Achievements);
  }

  lemma CatalogXpTotal()
    ensures CatalogXp(Achievements) == 695
  {
    var c := Achievements;
    assert c[..0] == [];
    assert CatalogXp(c[..1]) == 0;
    assert c[..2][..1] == c[..1];
    assert CatalogXp(c[..2]) == 10;
    assert c[..3][..2] == c[..2];
    assert CatalogXp(c[..3]) == 60;
    assert c[..4][..3] == c[..3];
    assert CatalogXp(c[..4]) == 160;
    assert c[..5][..4] == c[..4];
    assert CatalogXp(c[..5]) == 170;
    assert c[..6][..5] == c[..5];
    assert CatalogXp(c[..6]) == 220;
    assert c[..7][..6] == c[..6];
    assert CatalogXp(c[..7]) == 295;
    assert c[..8][..7] == c[..7];
    assert CatalogXp(c[..8]) == 445;
    assert c[..9][..8] == c[..8];
    assert CatalogXp(c[..9]) == 465;
    assert c[..10][..9] == c[..9];
    assert CatalogXp(c[..10]) == 495;
    assert c[..10] == c[..|c| - 1];
  }

  /**
   Requesting every other entry in catalog order from the initial progress
   unlocks the whole tree, for 695 XP: level 7 with the bar at 95.
   */
  lemma WholeTreeUnlockable()
    ensures Run(Achievements, InitialProgress, IdsOf(Achievements)[1..])
            == UserProgress(IdsOf(Achievements), 695)
    ensures Level(695) == 7 && LevelBarWidth(695) == 95
  {
    AchievementsShaped();
    ShapedDistinct(Achievements);
    ShapedParentsResolve(Achievements);
    var c := Achievements;
    forall i | 0 < i < |c|
      ensures ParentDeclaredBefore(c, i)
    {
    }
    assert InitialProgress == UserProgress([c[0].id], c[0].xp);
    CatalogOrderUnlocksAll(c);
    CatalogXpTotal();
  }
}
