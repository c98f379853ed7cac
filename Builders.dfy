/** The joins that turn the fetched documents into the indexes and the team
    the rules check: the club index and the player index from the bootstrap
    document, the team from its gameweek entry and picks, and the current
    gameweek. Each is a loop over one document; a key missing from an index
    is a fault that aborts the run. */
module Builders {
  import opened Models
  import opened Outcomes

  /** `build_clubs_by_id`: one club per bootstrap team id, named after the
      last bootstrap team that has that id. */
  method BuildClubsById(bootstrap: BootstrapData) returns (clubs: map<int, Club>)
    ensures clubs.Keys == set t | t in bootstrap.teams :: t.id
    ensures forall id | id in clubs :: clubs[id].id == id
    ensures forall i | 0 <= i < |bootstrap.teams|
              && (forall j | i < j < |bootstrap.teams| :: bootstrap.teams[j].id != bootstrap.teams[i].id) ::
              clubs[bootstrap.teams[i].id].name == bootstrap.teams[i].name
  {
    var teams := bootstrap.teams;
    clubs := map[];
    for i := 0 to |teams|
      invariant clubs.Keys == set t | t in teams[..i] :: t.id
      invariant forall id | id in clubs :: clubs[id].id == id
      invariant forall a | 0 <= a < i && (forall j | a < j < i :: teams[j].id != teams[a].id) ::
                  clubs[teams[a].id].name == teams[a].name
    {
      var club := teams[i];
      assert teams[..i + 1] == teams[..i] + [club];
      clubs := clubs[club.id := Club(club.id, club.name)];
    }
    assert teams[..|teams|] == teams;
  }

  /** The player an element stands for, with its club looked up by id. */
  function PlayerOf(clubs: map<int, Club>, element: BootstrapElement): (p: Player)
    requires element.team in clubs
    ensures p.id == element.id && p.name == element.webName && p.priceTenths == element.nowCost
    ensures p.club.id == element.team && p.club.id in clubs && p.club.name == clubs[p.club.id].name
  {
    // `now_cost / 10.0` millions is `now_cost` tenths of a million
    Player(element.id, element.webName, element.nowCost, Club(element.team, clubs[element.team].name))
  }

  /** No element after the `i`-th one (among the first `n`) has its id. */
  ghost predicate LastOfId(elements: seq<BootstrapElement>, i: nat, n: nat)
    requires i < n <= |elements|
  {
    forall j | i < j < n :: elements[j].id != elements[i].id
  }

  /** `build_players_by_id`: one player per bootstrap element id, built from
      the last element with that id, whose club is looked up by the
      element's team id. An element whose team id is not in the club index
      aborts the build ("Could not find a team"). */
  method BuildPlayersById(clubs: map<int, Club>, bootstrap: BootstrapData)
    returns (result: Result<map<int, Player>>)
    ensures result.Err? <==> exists i | 0 <= i < |bootstrap.elements| :: bootstrap.elements[i].team !in clubs
    ensures result.Err? ==>
              exists i | 0 <= i < |bootstrap.elements| ::
                && bootstrap.elements[i].team !in clubs
                && (forall j | 0 <= j < i :: bootstrap.elements[j].team in clubs)
                && result.fault == ClubNotFound(bootstrap.elements[i].team)
    ensures result.Ok? ==> result.value.Keys == set e | e in bootstrap.elements :: e.id
    ensures result.Ok? ==>
              forall id | id in result.value ::
                && result.value[id].id == id
                && result.value[id].club.id in clubs
                && result.value[id].club.name == clubs[result.value[id].club.id].name
    ensures result.Ok? ==>
              forall i | 0 <= i < |bootstrap.elements| && LastOfId(bootstrap.elements, i, |bootstrap.elements|) ::
                && bootstrap.elements[i].team in clubs
                && result.value[bootstrap.elements[i].id] == PlayerOf(clubs, bootstrap.elements[i])
  {
    var elements := bootstrap.elements;
    var players: map<int, Player> := map[];
    for i := 0 to |elements|
      invariant forall j | 0 <= j < i :: elements[j].team in clubs
      invariant forall j | 0 <= j < i :: elements[j].id in players
      invariant forall id | id in players :: exists j | 0 <= j < i :: elements[j].id == id
      invariant forall id | id in players ::
                  && players[id].id == id
                  && players[id].club.id in clubs
                  && players[id].club.name == clubs[players[id].club.id].name
      invariant forall a | 0 <= a < i && LastOfId(elements, a, i) :: players[elements[a].id] == PlayerOf(clubs, elements[a])
    {
      var element := elements[i];
      if element.team !in clubs {
        return Err(ClubNotFound(element.team));
      }
      var player := Player(element.id, element.webName, element.nowCost,
                           Club(element.team, clubs[element.team].name));
      forall a | 0 <= a < i && LastOfId(elements, a, i + 1) ensures LastOfId(elements, a, i) { }
      players := players[element.id := player];
    }
    assert players.Keys == set e | e in elements :: e.id by {
      forall id | id in players ensures id in set e | e in elements :: e.id {
        var j :| 0 <= j < |elements| && elements[j].id == id;
        assert elements[j] in elements;
      }
    }
    return Ok(players);
  }

  /** `build_team_from_data`: the team's players in pick order, each the
      indexed player under the pick's id; the captain is the player of the
      last pick flagged as captain, or `Player::default()` when none is. A
      pick whose element is not in the player index aborts the build. */
  method BuildTeamFromData(teamId: int, playersById: map<int, Player>, gameweek: GameweekData, picksData: PicksData)
    returns (result: Result<Team>)
    ensures result.Err? <==> exists i | 0 <= i < |picksData.picks| :: picksData.picks[i].element !in playersById
    ensures result.Err? ==>
              exists i | 0 <= i < |picksData.picks| ::
                && picksData.picks[i].element !in playersById
                && (forall j | 0 <= j < i :: picksData.picks[j].element in playersById)
                && result.fault == PlayerNotFound(picksData.picks[i].element)
    ensures result.Ok? ==>
              && result.value.id == teamId
              && result.value.name == gameweek.name
              && result.value.owner == gameweek.playerFirstName
    ensures result.Ok? ==>
              && |result.value.players| == |picksData.picks|
              && forall i | 0 <= i < |picksData.picks| ::
                   && picksData.picks[i].element in playersById
                   && result.value.players[i]
                      == playersById[picksData.picks[i].element].(id := picksData.picks[i].element)
    ensures result.Ok? && (forall i | 0 <= i < |picksData.picks| :: !picksData.picks[i].isCaptain) ==>
              result.value.captain == DefaultPlayer()
    ensures result.Ok? ==>
              forall i | 0 <= i < |picksData.picks| && picksData.picks[i].isCaptain
                && (forall j | i < j < |picksData.picks| :: !picksData.picks[j].isCaptain) ::
                result.value.captain == result.value.players[i]
    ensures result.Ok? && (exists i | 0 <= i < |picksData.picks| :: picksData.picks[i].isCaptain) ==>
              result.value.captain in result.value.players
  {
    var picks := picksData.picks;
    var players: seq<Player> := [];
    var captain := DefaultPlayer();
    ghost var captainAt := -1;
    for i := 0 to |picks|
      invariant |players| == i
      invariant forall k | 0 <= k < i ::
                  picks[k].element in playersById && players[k] == playersById[picks[k].element].(id := picks[k].element)
      invariant -1 <= captainAt < i
      invariant forall j | captainAt < j < i :: !picks[j].isCaptain
      invariant captainAt == -1 ==> captain == DefaultPlayer()
      invariant captainAt >= 0 ==> picks[captainAt].isCaptain && captain == players[captainAt]
    {
      var id := picks[i].element;
      if id !in playersById {
        return Err(PlayerNotFound(id));
      }
      var stored := playersById[id];
      var player := Player(id, stored.name, stored.priceTenths, Club(stored.club.id, stored.club.name));
      if picks[i].isCaptain {
        captain := player;
        captainAt := i;
      }
      players := players + [player];
    }
    result := Ok(Team(teamId, gameweek.name, gameweek.playerFirstName, captain, players));
    if captainAt >= 0 {
      assert players[captainAt] in players;
    }
  }

  /** `get_current_gameweek`: the id of the first event flagged as current;
      no such event aborts the run. */
  method GetCurrentGameweek(bootstrap: BootstrapData) returns (result: Result<int>)
    ensures result.Err? <==> forall i | 0 <= i < |bootstrap.events| :: !bootstrap.events[i].isCurrent
    ensures result.Err? ==> result.fault == NoCurrentGameweek
    ensures result.Ok? ==>
              exists i | 0 <= i < |bootstrap.events| ::
                && bootstrap.events[i].isCurrent
                && (forall j | 0 <= j < i :: !bootstrap.events[j].isCurrent)
                && result.value == bootstrap.events[i].id
  {
    for i := 0 to |bootstrap.events|
      invariant forall j | 0 <= j < i :: !bootstrap.events[j].isCurrent
    {
      if bootstrap.events[i].isCurrent {
        return Ok(bootstrap.events[i].id);
      }
    }
    return Err(NoCurrentGameweek);
  }
}
