/** The rule engine's own test cases, restated on small teams: the messages
    each rule writes, and the cases in which it passes. */
module Examples {
  import opened Models
  import opened Outcomes
  import opened Text
  import opened Validators
  import opened IndexMaps

  const ARSENAL := Club(1, "Arsenal")
  const BURNLEY := Club(3, "Burnley")
  const CHELSEA := Club(7, "Chelsea")
  const MAN_CITY := Club(13, "Man City")

  const GABRIEL := Player(5, "Gabriel", 60, ARSENAL)
  const SALIBA := Player(6, "Saliba", 60, ARSENAL)
  const PALMER := Player(249, "Palmer", 105, CHELSEA)
  const HAALAND := Player(328, "Haaland", 140, MAN_CITY)
  const FODEN := Player(329, "Foden", 75, MAN_CITY)
  const TARKOWSKI := Player(50, "Tarkowski", 55, BURNLEY)

  /** A price of 75 tenths is written "7.5", and 140 tenths "14". */
  lemma PricesAsWritten()
    ensures FormatPrice(75) == "7.5"
    ensures FormatPrice(105) == "10.5"
    ensures FormatPrice(140) == "14"
  {
  }

  const ARSENAL_TEAM := Team(1, "Pedro Cask Ale", "Jake", GABRIEL, [GABRIEL, SALIBA, PALMER])

  /** Two Arsenal players: the club rule fails and reports Arsenal alone,
      with its two players. */
  lemma DuplicateArsenal()
    ensures ClubRuleVerdict(ARSENAL_TEAM) == Invalid(ClubReport(ClubHeader(ARSENAL_TEAM), [("Arsenal", [GABRIEL, SALIBA])]))
  {
    ArsenalShared();
  }

  /** The two Arsenal players are listed as "Gabriel and Saliba". */
  lemma GabrielAndSaliba()
    ensures NameList([GABRIEL, SALIBA]) == "(Gabriel and Saliba)"
  {
    var names := PlayerNames([GABRIEL, SALIBA]);
    assert names == ["Gabriel", "Saliba"];
    assert names[..1] == ["Gabriel"];
    assert ListPhrase(names) == "Gabriel" + " and " + "Saliba";
  }

  lemma ArsenalShared()
    ensures SharedClubs([GABRIEL, SALIBA, PALMER]) == [("Arsenal", [GABRIEL, SALIBA])]
  {
    ArsenalGroups();
    var g2: IndexMap<string, seq<Player>> := [("Arsenal", [GABRIEL, SALIBA])];
    var groups := g2 + [("Chelsea", [PALMER])];
    assert groups[..1] == g2;
    assert !SharesClub("Chelsea", [PALMER]);
    assert Retain(groups, SharesClub) == Retain(g2, SharesClub);
    var empty: IndexMap<string, seq<Player>> := [];
    assert g2[..0] == empty;
    assert SharesClub("Arsenal", [GABRIEL, SALIBA]);
    assert Retain(g2, SharesClub) == Retain(empty, SharesClub) + g2;
  }

  /** Grouping by club opens Arsenal with Gabriel, adds Saliba to it, then
      opens Chelsea with Palmer. */
  lemma ArsenalGroups()
    ensures GroupPairs(ClubPairs([GABRIEL, SALIBA, PALMER]))
            == [("Arsenal", [GABRIEL, SALIBA]), ("Chelsea", [PALMER])]
  {
    var first := [("Arsenal", GABRIEL), ("Arsenal", SALIBA)];
    var g2: IndexMap<string, seq<Player>> := [("Arsenal", [GABRIEL, SALIBA])];
    assert ClubPairs([GABRIEL, SALIBA, PALMER]) == first + [("Chelsea", PALMER)] by {
      ArsenalClubPairs();
    }
    assert GroupPairs(first + [("Chelsea", PALMER)]) == Push(g2, "Chelsea", PALMER) by {
      GroupPairsSnoc(first, ("Chelsea", PALMER));
      ArsenalPairGrouped();
    }
    assert Push(g2, "Chelsea", PALMER) == g2 + [("Chelsea", [PALMER])] by {
      assert Keys(g2) == ["Arsenal"];
      PushNew(g2, "Chelsea", PALMER);
    }
  }

  lemma ArsenalClubPairs()
    ensures ClubPairs([GABRIEL, SALIBA, PALMER]) == [("Arsenal", GABRIEL), ("Arsenal", SALIBA), ("Chelsea", PALMER)]
  {
  }

  lemma ArsenalPairGrouped()
    ensures GroupPairs([("Arsenal", GABRIEL), ("Arsenal", SALIBA)]) == [("Arsenal", [GABRIEL, SALIBA])]
  {
    var pairs := [("Arsenal", GABRIEL), ("Arsenal", SALIBA)];
    var g1: IndexMap<string, seq<Player>> := [("Arsenal", [GABRIEL])];
    assert pairs[..1] == [("Arsenal", GABRIEL)];
    GabrielGrouped();
    assert pairs == pairs[..1] + [("Arsenal", SALIBA)];
    GroupPairsSnoc(pairs[..1], ("Arsenal", SALIBA));
    assert Keys(g1)[0] == "Arsenal";
    PushPresent(g1, "Arsenal", SALIBA);
    assert IndexOf(g1, "Arsenal") == 0;
    assert [GABRIEL] + [SALIBA] == [GABRIEL, SALIBA];
  }

  lemma GabrielGrouped()
    ensures GroupPairs([("Arsenal", GABRIEL)]) == [("Arsenal", [GABRIEL])]
  {
    var empty: seq<(string, Player)> := [];
    assert [("Arsenal", GABRIEL)] == empty + [("Arsenal", GABRIEL)];
    GroupPairsSnoc(empty, ("Arsenal", GABRIEL));
    PushNew([], "Arsenal", GABRIEL);
  }

  /** One player over the ceiling. */
  lemma HaalandOverBudget()
    ensures OverBudget([GABRIEL, HAALAND]) == [("Haaland", 140)]
    ensures PriceCeilingVerdict(Team(1, "Pedro Cask Ale", "Jake", HAALAND, [GABRIEL, HAALAND]))
            == Invalid(OverBudgetHeader("Jake") + "Haaland (14m)")
  {
    var players := [GABRIEL, HAALAND];
    assert players[..0] == [] && players[..2] == players;
    OverBudgetPairsStep(players, 0);
    OverBudgetPairsStep(players, 1);
    assert OverBudgetPairs(players) == [] + [("Haaland", 140)];
    var empty: IndexMap<string, int> := [];
    FromPairsSnoc([], ("Haaland", 140));
    InsertNew(empty, "Haaland", 140);
    assert [] + [("Haaland", 140)] == [("Haaland", 140)];
    HaalandItem();
  }

  lemma HaalandItem()
    ensures OverBudgetItem(("Haaland", 140)) == "Haaland (14m)"
  {
    assert FormatPrice(140) == "14";
  }

  lemma PalmerItem()
    ensures OverBudgetItem(("Palmer", 105)) == "Palmer (10.5m)"
  {
    assert FormatPrice(105) == "10.5";
  }

  const RUFO_TEAM := Team(2, "Rufo FC", "Javier Rufo", PALMER, [PALMER, FODEN, HAALAND])

  /** Two players over the ceiling, listed in team order. */
  lemma PalmerAndHaalandOverBudget()
    ensures OverBudget(RUFO_TEAM.players) == [("Palmer", 105), ("Haaland", 140)]
  {
    var players := RUFO_TEAM.players;
    assert players[..0] == [] && players[..3] == players;
    OverBudgetPairsStep(players, 0);
    OverBudgetPairsStep(players, 1);
    OverBudgetPairsStep(players, 2);
    var pairs := [("Palmer", 105), ("Haaland", 140)];
    assert OverBudgetPairs(players) == [] + [("Palmer", 105)] + [("Haaland", 140)];
    var empty: IndexMap<string, int> := [];
    var first := [("Palmer", 105)];
    assert FromPairs(pairs[..1]) == first by {
      assert pairs[..1] == [] + [("Palmer", 105)];
      FromPairsSnoc([], ("Palmer", 105));
      InsertNew(empty, "Palmer", 105);
    }
    assert pairs == pairs[..1] + [("Haaland", 140)];
    FromPairsSnoc(pairs[..1], ("Haaland", 140));
    assert Keys(first) == ["Palmer"];
    InsertNew(first, "Haaland", 140);
  }

  /** The price rule lists both, each with its price. */
  lemma PalmerAndHaalandVerdict()
    ensures PriceCeilingVerdict(RUFO_TEAM)
            == Invalid(OverBudgetHeader("Javier Rufo") + "Palmer (10.5m) and Haaland (14m)")
  {
    PalmerAndHaalandOverBudget();
    var pairs := [("Palmer", 105), ("Haaland", 140)];
    PalmerItem();
    HaalandItem();
    var items := OverBudgetItems(pairs);
    assert items == ["Palmer (10.5m)", "Haaland (14m)"];
    assert items[..1] == ["Palmer (10.5m)"];
    assert ListPhrase(items) == "Palmer (10.5m)" + " and " + "Haaland (14m)";
    PalmerAndHaalandText();
  }

  lemma PalmerAndHaalandText()
    ensures "Palmer (10.5m)" + " and " + "Haaland (14m)" == "Palmer (10.5m) and Haaland (14m)"
  {
  }

  /** No Burnley player: the promoted-club rule fails and names Burnley. */
  lemma MissingBurnley()
    ensures PromotedVerdict(map[1 := ARSENAL, 3 := BURNLEY, 7 := CHELSEA], [3, 7],
                            Team(2, "Rufo FC", "Javier Rufo", PALMER, [PALMER, GABRIEL]))
            == Ok(Invalid(PromotedMessage("Javier Rufo", "Burnley")))
  {
    var players := [PALMER, GABRIEL];
    assert !HasPlayerFrom(players, 3);
    assert FirstUnrepresented([3, 7], players) == 0;
  }

  /** The three players of the valid team: three clubs, all under the
      ceiling, one from Burnley and one from Man City. */
  const VALID_PLAYERS := [GABRIEL, TARKOWSKI, FODEN]
  const VALID_TEAM := Team(3, "Valid XI", "Jake", GABRIEL, VALID_PLAYERS)

  lemma ValidTeamClubs()
    ensures ClubRuleVerdict(VALID_TEAM) == Valid()
  {
    ValidClubNamesDiffer();
    ClubRuleValidIff(VALID_PLAYERS);
  }

  lemma ValidClubNamesDiffer()
    ensures forall i, j | 0 <= i < j < |VALID_PLAYERS| :: VALID_PLAYERS[i].club.name != VALID_PLAYERS[j].club.name
  {
    var names := [VALID_PLAYERS[0].club.name, VALID_PLAYERS[1].club.name, VALID_PLAYERS[2].club.name];
    assert names[0][0] == 'A' && names[1][0] == 'B' && names[2][0] == 'M';
  }

  lemma ValidTeamPrices()
    ensures PriceCeilingVerdict(VALID_TEAM) == Valid()
  {
    var players := VALID_PLAYERS;
    assert players[..0] == [] && players[..3] == players;
    OverBudgetPairsStep(players, 0);
    OverBudgetPairsStep(players, 1);
    OverBudgetPairsStep(players, 2);
    assert OverBudgetPairs(players) == [];
    assert |OverBudget(players)| == 0;
  }

  lemma ValidTeamPromoted()
    ensures PromotedVerdict(map[3 := BURNLEY, 13 := MAN_CITY], [3, 13], VALID_TEAM) == Ok(Valid())
  {
    var players := VALID_PLAYERS;
    assert players[1].club.id == 3 && players[2].club.id == 13;
    assert HasPlayerFrom(players, 3) && HasPlayerFrom(players, 13);
    assert FirstUnrepresented([3, 13][1..], players) == 1 + FirstUnrepresented([3, 13][2..], players) by {
      assert [3, 13][1..][1..] == [3, 13][2..] == [];
    }
  }
}
