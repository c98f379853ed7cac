/** The league's house rules, checked against one assembled team, and the
    aggregator that keeps only the violations.

    Each rule is a method written as the program writes it (a loop filling
    an insertion-ordered map, then a loop pushing the message text) and is
    proved equal to a verdict function; the lemmas below say what each
    verdict means in terms of the team's players. */
module Validators {
  import opened Models
  import opened Outcomes
  import opened IndexMaps
  import opened Text

  /** 10.0 million in tenths: a price at or above it breaks the ceiling. */
  const PRICE_CEILING_TENTHS := 100

  // ---------------------------------------------------------------------
  // Price ceiling: `team_contains_players_under_10_m`

  /** The name and price of every player at or over the ceiling, in team order. */
  function OverBudgetPairs(players: seq<Player>): seq<(string, int)>
  {
    if players == [] then []
    else
      var p := players[|players| - 1];
      OverBudgetPairs(players[..|players| - 1])
      + (if p.priceTenths >= PRICE_CEILING_TENTHS then [(p.name, p.priceTenths)] else [])
  }

  /** The rule's map from name to price once every player has been seen. */
  function OverBudget(players: seq<Player>): IndexMap<string, int>
  {
    FromPairs(OverBudgetPairs(players))
  }

  function OverBudgetItem(entry: (string, int)): string
  {
    entry.0 + " (" + FormatPrice(entry.1) + "m)"
  }

  function OverBudgetItems(over: IndexMap<string, int>): seq<string>
  {
    seq(|over|, i requires 0 <= i < |over| => OverBudgetItem(over[i]))
  }

  function OverBudgetHeader(owner: string): string
  {
    "Big wompers! " + owner + " has gone overbudget with "
  }

  /** What the price rule returns for `team`. */
  function PriceCeilingVerdict(team: Team): ValidationResult
  {
    var over := OverBudget(team.players);
    if |over| > 0 then Invalid(OverBudgetHeader(team.owner) + ListPhrase(OverBudgetItems(over)))
    else Valid()
  }

  method TeamContainsPlayersUnder10M(team: Team) returns (result: ValidationResult)
    ensures result == PriceCeilingVerdict(team)
    ensures result.isValid <==> forall i | 0 <= i < |team.players| :: team.players[i].priceTenths < PRICE_CEILING_TENTHS
  {
    var over := CollectOverBudget(team.players);
    var violation := WriteOverBudget(team.owner, over);
    PriceCeilingValidIff(team.players);
    if |over| > 0 {
      return Invalid(violation);
    }
    return Valid();
  }

  /** The collecting loop of the price rule: every player at or over the
      ceiling inserted under its name. */
  method CollectOverBudget(players: seq<Player>) returns (over: IndexMap<string, int>)
    ensures over == OverBudget(players)
  {
    over := [];
    for i := 0 to |players|
      invariant over == OverBudget(players[..i])
    {
      var player := players[i];
      OverBudgetPairsStep(players, i);
      if player.priceTenths >= PRICE_CEILING_TENTHS {
        FromPairsSnoc(OverBudgetPairs(players[..i]), (player.name, player.priceTenths));
        over := Insert(over, player.name, player.priceTenths);
      }
    }
    assert players[..|players|] == players;
  }

  /** The writing loop of the price rule: after the header, each entry as
      "<name> (<price>m)", in an English list. */
  method WriteOverBudget(owner: string, over: IndexMap<string, int>) returns (violation: string)
    ensures violation == OverBudgetHeader(owner) + ListPhrase(OverBudgetItems(over))
  {
    violation := OverBudgetHeader(owner);
    ghost var items := OverBudgetItems(over);
    for index := 0 to |over|
      invariant violation == Enumerated(OverBudgetHeader(owner), items, index)
    {
      ghost var before := violation;
      if index == 0 {
      } else if index == |over| - 1 {
        violation := violation + " and ";
      } else {
        violation := violation + ", ";
      }
      assert violation == before + Separator(index, |items|);
      violation := violation + OverBudgetItem(over[index]);
      assert items[index] == OverBudgetItem(over[index]);
    }
    EnumeratedIsListPhrase(OverBudgetHeader(owner), items);
  }

  lemma OverBudgetPairsStep(players: seq<Player>, i: nat)
    requires i < |players|
    ensures players[i].priceTenths >= PRICE_CEILING_TENTHS ==>
              OverBudgetPairs(players[..i + 1]) == OverBudgetPairs(players[..i]) + [(players[i].name, players[i].priceTenths)]
    ensures players[i].priceTenths < PRICE_CEILING_TENTHS ==>
              OverBudgetPairs(players[..i + 1]) == OverBudgetPairs(players[..i])
  {
    assert players[..i + 1][..i] == players[..i];
  }

  /** `entry` is the name and price of a player of `players` at or over the ceiling. */
  predicate IsOverBudgetEntry(players: seq<Player>, entry: (string, int))
  {
    exists i | 0 <= i < |players| ::
      players[i].priceTenths >= PRICE_CEILING_TENTHS && entry == (players[i].name, players[i].priceTenths)
  }

  /** The over-ceiling pairs are exactly the over-ceiling players' names and prices. */
  lemma {:induction false} OverBudgetPairsMembers(players: seq<Player>)
    ensures forall i | 0 <= i < |players| && players[i].priceTenths >= PRICE_CEILING_TENTHS ::
              (players[i].name, players[i].priceTenths) in OverBudgetPairs(players)
    ensures forall k | 0 <= k < |OverBudgetPairs(players)| :: IsOverBudgetEntry(players, OverBudgetPairs(players)[k])
  {
    if players != [] {
      var n := |players| - 1;
      var init := players[..n];
      OverBudgetPairsMembers(init);
      OverBudgetPairsStep(players, n);
      assert players[..n + 1] == players;
      var rest := OverBudgetPairs(init);
      var pairs := OverBudgetPairs(players);
      assert pairs[..|rest|] == rest;
      forall k | 0 <= k < |pairs| ensures IsOverBudgetEntry(players, pairs[k]) {
        if k < |rest| {
          assert pairs[k] == rest[k];
          var i :| 0 <= i < |init| && init[i].priceTenths >= PRICE_CEILING_TENTHS
                   && rest[k] == (init[i].name, init[i].priceTenths);
          assert players[i] == init[i];
        } else {
          assert pairs[k] == (players[n].name, players[n].priceTenths);
        }
      }
      forall i | 0 <= i < |players| && players[i].priceTenths >= PRICE_CEILING_TENTHS
        ensures (players[i].name, players[i].priceTenths) in pairs
      {
        if i < n {
          assert players[i] == init[i];
          assert (init[i].name, init[i].priceTenths) in rest;
        }
      }
    }
  }

  /** The price rule passes iff no player is priced at 10.0m or more. */
  lemma PriceCeilingValidIff(players: seq<Player>)
    ensures |OverBudget(players)| == 0 <==>
              forall i | 0 <= i < |players| :: players[i].priceTenths < PRICE_CEILING_TENTHS
  {
    var pairs := OverBudgetPairs(players);
    OverBudgetPairsMembers(players);
    FromPairsKeys(pairs);
    FirstSeenCharacterized(Keys(pairs));
    if |pairs| > 0 {
      assert Keys(pairs)[0] in FirstSeen(Keys(pairs));
    }
  }

  /** The rule lists every over-ceiling name once, in the order in which the
      names first occur among the over-ceiling players. */
  lemma OverBudgetNames(players: seq<Player>)
    ensures Keys(OverBudget(players)) == FirstSeen(Keys(OverBudgetPairs(players)))
    ensures Distinct(Keys(OverBudget(players)))
    ensures forall a, b | 0 <= a < b < |OverBudget(players)| ::
              Position(Keys(OverBudgetPairs(players)), OverBudget(players)[a].0)
              < Position(Keys(OverBudgetPairs(players)), OverBudget(players)[b].0)
  {
    var pairs := OverBudgetPairs(players);
    FromPairsKeys(pairs);
    FirstSeenCharacterized(Keys(pairs));
    var over := OverBudget(players);
    forall a, b | 0 <= a < b < |over|
      ensures Position(Keys(pairs), over[a].0) < Position(Keys(pairs), over[b].0)
    {
      assert Keys(over)[a] == over[a].0 && Keys(over)[b] == over[b].0;
    }
  }

  /** A name listed more than once over the ceiling shows the price of its
      last occurrence. */
  lemma OverBudgetLastPrice(players: seq<Player>, j: nat)
    requires j < |OverBudgetPairs(players)|
    requires forall l | j < l < |OverBudgetPairs(players)| ::
               OverBudgetPairs(players)[l].0 != OverBudgetPairs(players)[j].0
    ensures HasKey(OverBudget(players), OverBudgetPairs(players)[j].0)
    ensures Get(OverBudget(players), OverBudgetPairs(players)[j].0) == OverBudgetPairs(players)[j].1
  {
    FromPairsLastWins(OverBudgetPairs(players), j);
  }

  // ---------------------------------------------------------------------
  // One player per club: `team_contains_at_most_one_player_per_club`

  /** Every player keyed by its club's name, in team order. */
  function ClubPairs(players: seq<Player>): seq<(string, Player)>
  {
    seq(|players|, i requires 0 <= i < |players| => (players[i].club.name, players[i]))
  }

  /** The clubs' names, in team order. */
  function ClubNames(players: seq<Player>): seq<string>
  {
    seq(|players|, i requires 0 <= i < |players| => players[i].club.name)
  }

  function PlayerNames(players: seq<Player>): seq<string>
  {
    seq(|players|, i requires 0 <= i < |players| => players[i].name)
  }

  predicate SharesClub(club: string, members: seq<Player>)
  {
    |members| > 1
  }

  /** The players grouped by club name, keeping only clubs with two or more. */
  function SharedClubs(players: seq<Player>): IndexMap<string, seq<Player>>
  {
    Retain(GroupPairs(ClubPairs(players)), SharesClub)
  }

  /** The report of the club rule after the segments of `groups`, each
      " more than 1 player from <club> (<names>)", written after `prefix`. */
  function ClubReport(prefix: string, groups: IndexMap<string, seq<Player>>): string
  {
    if groups == [] then prefix
    else
      var last := groups[|groups| - 1];
      ClubReport(prefix, groups[..|groups| - 1]) + (" more than 1 player from " + last.0 + " ") + NameList(last.1)
  }

  /** The players' names as a bracketed English list; nothing for no players. */
  function NameList(players: seq<Player>): string
  {
    if players == [] then "" else "(" + ListPhrase(PlayerNames(players)) + ")"
  }

  function ClubHeader(team: Team): string
  {
    team.owner + " has shat the bed. " + team.name + " contains"
  }

  /** What the club rule returns for `team`. */
  function ClubRuleVerdict(team: Team): ValidationResult
  {
    var shared := SharedClubs(team.players);
    if |shared| > 0 then Invalid(ClubReport(ClubHeader(team), shared)) else Valid()
  }

  /** What the inner loop of the club rule writes before the `i`-th name. */
  function Opening(i: nat, n: nat): string
  {
    if i == 0 then "(" else Separator(i, n)
  }

  /** What the inner loop of the club rule writes after the `i`-th name. */
  function Closing(i: nat, n: nat): string
  {
    if i == n - 1 then ")" else ""
  }

  /** The text the inner loop of the club rule has written after `i`
      rounds, starting from `prefix`. */
  function Bracketed(prefix: string, names: seq<string>, i: nat): string
    requires i <= |names|
  {
    if i == 0 then prefix
    else Bracketed(prefix, names, i - 1) + Opening(i - 1, |names|) + names[i - 1] + Closing(i - 1, |names|)
  }

  method TeamContainsAtMostOnePlayerPerClub(team: Team) returns (result: ValidationResult)
    ensures result == ClubRuleVerdict(team)
    ensures result.isValid <==>
              forall i, j | 0 <= i < j < |team.players| :: team.players[i].club.name != team.players[j].club.name
  {
    var groups := GroupByClub(team.players);
    groups := Retain(groups, SharesClub);
    var violation := WriteClubReport(ClubHeader(team), groups);
    ClubRuleValidIff(team.players);
    if |groups| > 0 {
      return Invalid(violation);
    }
    return Valid();
  }

  /** The grouping loop of the club rule: every player pushed onto the
      group of its club's name. */
  method GroupByClub(players: seq<Player>) returns (groups: IndexMap<string, seq<Player>>)
    ensures groups == GroupPairs(ClubPairs(players))
  {
    groups := [];
    for i := 0 to |players|
      invariant groups == GroupPairs(ClubPairs(players[..i]))
    {
      var player := players[i];
      GroupingStep(players, i);
      groups := Push(groups, player.club.name, player);
    }
    assert players[..|players|] == players;
  }

  /** The writing loops of the club rule: after `header`, one segment per
      group, naming the group's players. */
  method WriteClubReport(header: string, groups: IndexMap<string, seq<Player>>) returns (violation: string)
    ensures violation == ClubReport(header, groups)
  {
    violation := header;
    for g := 0 to |groups|
      invariant violation == ClubReport(header, groups[..g])
    {
      var club, members := groups[g].0, groups[g].1;
      violation := violation + (" more than 1 player from " + club + " ");
      ghost var listStart := violation;
      ghost var names := PlayerNames(members);
      for index := 0 to |members|
        invariant violation == Bracketed(listStart, names, index)
      {
        ghost var before := violation;
        if index == 0 {
          violation := violation + "(";
        } else if index == |members| - 1 {
          violation := violation + " and ";
        } else {
          violation := violation + ", ";
        }
        assert violation == before + Opening(index, |names|);
        violation := violation + members[index].name;
        assert names[index] == members[index].name;
        ghost var named := violation;
        if index == |members| - 1 {
          violation := violation + ")";
        }
        assert violation == named + Closing(index, |names|);
      }
      ClubReportStep(header, groups, g, violation);
    }
    assert groups[..|groups|] == groups;
  }

  /** One round of the grouping loop of the club rule. */
  lemma GroupingStep(players: seq<Player>, i: nat)
    requires i < |players|
    ensures GroupPairs(ClubPairs(players[..i + 1]))
            == Push(GroupPairs(ClubPairs(players[..i])), players[i].club.name, players[i])
  {
    assert ClubPairs(players[..i + 1]) == ClubPairs(players[..i]) + [(players[i].club.name, players[i])];
    GroupPairsSnoc(ClubPairs(players[..i]), (players[i].club.name, players[i]));
  }

  /** One round of the outer writing loop of the club rule. */
  lemma ClubReportStep(prefix: string, groups: IndexMap<string, seq<Player>>, g: nat, text: string)
    requires g < |groups|
    requires text == Bracketed(ClubReport(prefix, groups[..g]) + (" more than 1 player from " + groups[g].0 + " "),
                               PlayerNames(groups[g].1), |groups[g].1|)
    ensures text == ClubReport(prefix, groups[..g + 1])
  {
    var start := ClubReport(prefix, groups[..g]) + (" more than 1 player from " + groups[g].0 + " ");
    assert groups[..g + 1][..g] == groups[..g];
    assert ClubReport(prefix, groups[..g + 1]) == start + NameList(groups[g].1);
    if |groups[g].1| == 0 {
      assert start + "" == start;
    } else {
      var phrase := ListPhrase(PlayerNames(groups[g].1));
      BracketedIsListPhrase(start, PlayerNames(groups[g].1));
      calc {
        start + "(" + phrase + ")";
        { AppendAssoc(start + "(", phrase, ")"); }
        start + "(" + (phrase + ")");
        { AppendAssoc(start, "(", phrase + ")"); }
        start + ("(" + (phrase + ")"));
        { AppendAssoc("(", phrase, ")"); }
        start + ("(" + phrase + ")");
      }
    }
    assert groups[..g + 1][..g] == groups[..g];
  }

  /** Part way through, the inner loop has written "(" and an enumeration. */
  lemma {:induction false} BracketedIsEnumerated(prefix: string, names: seq<string>, i: nat)
    requires 0 < i <= |names|
    ensures Bracketed(prefix, names, i) == Enumerated(prefix + "(", names, i) + Closing(i - 1, |names|)
  {
    if i == 1 {
      assert prefix + "(" + "" == prefix + "(";
    } else {
      BracketedIsEnumerated(prefix, names, i - 1);
      assert Enumerated(prefix + "(", names, i - 1) + "" == Enumerated(prefix + "(", names, i - 1);
    }
  }

  /** The inner loop of the club rule writes the names as an English list
      in brackets. */
  lemma BracketedIsListPhrase(prefix: string, names: seq<string>)
    requires |names| > 0
    ensures Bracketed(prefix, names, |names|) == prefix + "(" + ListPhrase(names) + ")"
  {
    BracketedIsEnumerated(prefix, names, |names|);
    EnumeratedIsListPhrase(prefix + "(", names);
  }

  lemma ClubPairsKeys(players: seq<Player>)
    ensures Keys(ClubPairs(players)) == ClubNames(players)
  {
  }

  /** The grouping keys are distinct: one group per club name. */
  lemma GroupsDistinct(players: seq<Player>)
    ensures Distinct(Keys(GroupPairs(ClubPairs(players))))
  {
    GroupPairsKeys(ClubPairs(players));
    FirstSeenCharacterized(Keys(ClubPairs(players)));
  }

  /** Each reported club comes with all of its players, in team order, and
      has more than one. */
  lemma SharedClubsGroups(players: seq<Player>)
    ensures forall k | 0 <= k < |SharedClubs(players)| ::
              && SharedClubs(players)[k].1 == ValuesOf(ClubPairs(players), SharedClubs(players)[k].0)
              && |SharedClubs(players)[k].1| > 1
  {
    var pairs := ClubPairs(players);
    var groups := GroupPairs(pairs);
    var shared := SharedClubs(players);
    GroupsDistinct(players);
    forall k | 0 <= k < |shared|
      ensures shared[k].1 == ValuesOf(pairs, shared[k].0) && |shared[k].1| > 1
    {
      assert SharesClub(shared[k].0, shared[k].1);
      var g :| 0 <= g < |groups| && groups[g] == shared[k];
      EntryLookup(groups, g);
      GroupPairsValues(pairs, groups[g].0);
    }
  }

  /** Every club that two players share is reported. */
  lemma SharedClubsComplete(players: seq<Player>)
    ensures forall i, j | 0 <= i < j < |players| && players[i].club.name == players[j].club.name ::
              HasKey(SharedClubs(players), players[i].club.name)
  {
    forall i, j | 0 <= i < j < |players| && players[i].club.name == players[j].club.name
      ensures HasKey(SharedClubs(players), players[i].club.name)
    {
      SharedClubReported(players, i, j);
    }
  }

  lemma SharedClubReported(players: seq<Player>, i: nat, j: nat)
    requires i < j < |players| && players[i].club.name == players[j].club.name
    ensures HasKey(SharedClubs(players), players[i].club.name)
  {
    var pairs := ClubPairs(players);
    var groups := GroupPairs(pairs);
    var c := players[i].club.name;
    assert |ValuesOf(pairs, c)| >= 2 by {
      assert pairs[i].0 == c && pairs[j].0 == c;
      ValuesOfCount(pairs, c);
    }
    assert HasKey(groups, c) && Get(groups, c) == ValuesOf(pairs, c) by {
      assert Keys(pairs)[i] == c;
      GroupPairsValues(pairs, c);
    }
    var g := IndexOf(groups, c);
    assert SharesClub(groups[g].0, groups[g].1);
    var shared := SharedClubs(players);
    assert groups[g] in shared;
    var k :| 0 <= k < |shared| && shared[k] == groups[g];
    assert Keys(shared)[k] == c;
  }

  /** The club rule passes iff no two players share a club name. */
  lemma ClubRuleValidIff(players: seq<Player>)
    ensures |SharedClubs(players)| == 0 <==>
              forall i, j | 0 <= i < j < |players| :: players[i].club.name != players[j].club.name
  {
    var pairs := ClubPairs(players);
    SharedClubsGroups(players);
    SharedClubsComplete(players);
    if |SharedClubs(players)| > 0 {
      var c := SharedClubs(players)[0].0;
      ValuesOfCount(pairs, c);
      var i, j :| 0 <= i < j < |pairs| && pairs[i].0 == c && pairs[j].0 == c;
      assert players[i].club.name == players[j].club.name;
    }
  }

  /** Reported clubs appear in the order of their first player in the team. */
  lemma SharedClubsOrder(players: seq<Player>)
    ensures forall a, b | 0 <= a < b < |SharedClubs(players)| ::
              Position(ClubNames(players), SharedClubs(players)[a].0)
              < Position(ClubNames(players), SharedClubs(players)[b].0)
  {
    forall a, b | 0 <= a < b < |SharedClubs(players)|
      ensures Position(ClubNames(players), SharedClubs(players)[a].0)
              < Position(ClubNames(players), SharedClubs(players)[b].0)
    {
      SharedPairOrder(players, a, b);
    }
  }

  lemma SharedPairOrder(players: seq<Player>, a: nat, b: nat)
    requires a < b < |SharedClubs(players)|
    ensures Position(ClubNames(players), SharedClubs(players)[a].0)
            < Position(ClubNames(players), SharedClubs(players)[b].0)
  {
    var groups := GroupPairs(ClubPairs(players));
    var shared := SharedClubs(players);
    var names := ClubNames(players);
    var x, y := IndexOf(groups, shared[a].0), IndexOf(groups, shared[b].0);
    assert x < y < |groups| by {
      GroupsDistinct(players);
      RetainOrderAt(groups, SharesClub, a, b);
    }
    assert Keys(groups) == FirstSeen(names) by {
      ClubPairsKeys(players);
      GroupPairsKeys(ClubPairs(players));
    }
    assert Keys(groups)[x] == shared[a].0 && Keys(groups)[y] == shared[b].0;
    FirstSeenOrderAt(names, x, y);
  }

  // ---------------------------------------------------------------------
  // Newly promoted clubs: `team_contains_players_from_newly_promoted_clubs`

  /** `team.players.iter().any(|player| player.club.id == club_id)` */
  predicate HasPlayerFrom(players: seq<Player>, clubId: int)
  {
    exists i | 0 <= i < |players| :: players[i].club.id == clubId
  }

  /** Index of the first promoted club id that no player belongs to;
      `|promoted|` when every one is represented. */
  function FirstUnrepresented(promoted: seq<int>, players: seq<Player>): (k: nat)
    ensures k <= |promoted|
    ensures forall j | 0 <= j < k :: HasPlayerFrom(players, promoted[j])
    ensures k < |promoted| ==> !HasPlayerFrom(players, promoted[k])
  {
    if promoted == [] then 0
    else if !HasPlayerFrom(players, promoted[0]) then 0
    else 1 + FirstUnrepresented(promoted[1..], players)
  }

  function PromotedMessage(owner: string, clubName: string): string
  {
    "Yikes! " + owner + " has not included players from " + clubName + ". That's gonna sting"
  }

  /** What the promoted-club rule returns for `team`; a fault when the first
      missing club id has no entry in the club index. */
  function PromotedVerdict(clubs: map<int, Club>, promoted: seq<int>, team: Team): Result<ValidationResult>
  {
    var k := FirstUnrepresented(promoted, team.players);
    if k == |promoted| then Ok(Valid())
    else if promoted[k] in clubs then Ok(Invalid(PromotedMessage(team.owner, clubs[promoted[k]].name)))
    else Err(ClubNotFound(promoted[k]))
  }

  method TeamContainsPlayersFromNewlyPromotedClubs(clubs: map<int, Club>, promoted: seq<int>, team: Team)
    returns (result: Result<ValidationResult>)
    ensures result == PromotedVerdict(clubs, promoted, team)
    ensures result == Ok(Valid()) <==> forall j | 0 <= j < |promoted| :: HasPlayerFrom(team.players, promoted[j])
    ensures result.Ok? && !result.value.isValid ==>
              exists k | 0 <= k < |promoted| ::
                && (forall j | 0 <= j < k :: HasPlayerFrom(team.players, promoted[j]))
                && !HasPlayerFrom(team.players, promoted[k])
                && promoted[k] in clubs
                && result.value.reason == PromotedMessage(team.owner, clubs[promoted[k]].name)
  {
    for i := 0 to |promoted|
      invariant forall j | 0 <= j < i :: HasPlayerFrom(team.players, promoted[j])
    {
      var clubId := promoted[i];
      if !HasPlayerFrom(team.players, clubId) {
        if clubId !in clubs {
          return Err(ClubNotFound(clubId));
        }
        return Ok(Invalid(PromotedMessage(team.owner, clubs[clubId].name)));
      }
    }
    return Ok(Valid());
  }

  // ---------------------------------------------------------------------
  // The aggregator: `run_and_retain_violations`

  /** The failures of `results`, in their order. */
  function Violations(results: seq<ValidationResult>): seq<ValidationResult>
  {
    if results == [] then []
    else
      Violations(results[..|results| - 1])
      + (if results[|results| - 1].isValid then [] else [results[|results| - 1]])
  }

  /** Only failures remain, and every failure remains. */
  lemma {:induction false} ViolationsMembers(results: seq<ValidationResult>)
    ensures forall k | 0 <= k < |Violations(results)| ::
              !Violations(results)[k].isValid && Violations(results)[k] in results
    ensures forall i | 0 <= i < |results| && !results[i].isValid :: results[i] in Violations(results)
  {
    if results != [] {
      var init := results[..|results| - 1];
      ViolationsMembers(init);
      forall i | 0 <= i < |results| && !results[i].isValid ensures results[i] in Violations(results) {
        if i < |init| {
          assert results[i] == init[i];
        }
      }
      forall k | 0 <= k < |Violations(init)| ensures Violations(init)[k] in results {
        var x := Violations(init)[k];
        var i :| 0 <= i < |init| && init[i] == x;
        assert results[i] == x;
      }
    }
  }

  /** Filtering a concatenation filters each part. */
  lemma {:induction false} ViolationsAppend(a: seq<ValidationResult>, b: seq<ValidationResult>)
    ensures Violations(a + b) == Violations(a) + Violations(b)
  {
    if b != [] {
      var init := b[..|b| - 1];
      ViolationsAppend(a, init);
      assert (a + b)[..|a + b| - 1] == a + init;
    } else {
      assert a + b == a;
    }
  }

  /** Filtering twice is filtering once. */
  lemma {:induction false} ViolationsIdempotent(results: seq<ValidationResult>)
    ensures Violations(Violations(results)) == Violations(results)
  {
    if results != [] {
      var init := results[..|results| - 1];
      ViolationsIdempotent(init);
      var last := results[|results| - 1];
      ViolationsAppend(Violations(init), if last.isValid then [] else [last]);
    }
  }

  /** The caller's `Vec<ValidationResult>`. */
  class ValidationResults {
    var items: seq<ValidationResult>

    constructor ()
      ensures items == []
    {
      items := [];
    }

    /** `Vec::push` */
    method Push(r: ValidationResult)
      modifies this
      ensures items == old(items) + [r]
    {
      items := items + [r];
    }

    /** `retain(|result| !result.is_valid)` */
    method RetainViolations()
      modifies this
      ensures items == Violations(old(items))
    {
      var kept: seq<ValidationResult> := [];
      for i := 0 to |items|
        invariant kept == Violations(items[..i])
      {
        assert items[..i + 1][..i] == items[..i];
        if !items[i].isValid {
          kept := kept + [items[i]];
        }
      }
      assert items[..|items|] == items;
      items := kept;
    }
  }

  /** `run_and_retain_violations`: pushes the verdicts of the price rule,
      the promoted-club rule and the club rule, in that order, then drops
      every passing entry of the whole vector. A fault in the promoted-club
      rule aborts after the price verdict was pushed. */
  method RunAndRetainViolations(clubs: map<int, Club>, promoted: seq<int>, results: ValidationResults, team: Team)
    returns (outcome: Result<()>)
    modifies results
    ensures outcome.Err? <==> PromotedVerdict(clubs, promoted, team).Err?
    ensures outcome.Err? ==>
              && outcome.fault == PromotedVerdict(clubs, promoted, team).fault
              && results.items == old(results.items) + [PriceCeilingVerdict(team)]
    ensures outcome.Ok? ==>
              results.items
              == Violations(old(results.items))
                 + Violations([PriceCeilingVerdict(team), PromotedVerdict(clubs, promoted, team).value, ClubRuleVerdict(team)])
    ensures outcome.Ok? ==> forall k | 0 <= k < |results.items| :: !results.items[k].isValid
  {
    var price := TeamContainsPlayersUnder10M(team);
    results.Push(price);
    var promotedResult := TeamContainsPlayersFromNewlyPromotedClubs(clubs, promoted, team);
    if promotedResult.Err? {
      return Err(promotedResult.fault);
    }
    results.Push(promotedResult.value);
    var club := TeamContainsAtMostOnePlayerPerClub(team);
    results.Push(club);
    ghost var pushed := results.items;
    AppendThree(old(results.items), price, promotedResult.value, club);
    results.RetainViolations();
    ViolationsAppend(old(results.items), [price, promotedResult.value, club]);
    ViolationsMembers(pushed);
    return Ok(());
  }

  lemma AppendThree<T>(s: seq<T>, x: T, y: T, z: T)
    ensures s + [x] + [y] + [z] == s + [x, y, z]
  {
  }
}
