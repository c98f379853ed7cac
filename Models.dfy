/** The records of the program: the documents it reads (bootstrap data,
    a team's gameweek entry and picks) and the entities it builds from
    them (clubs, players, teams) and checks (validation results).

    Ids are the API's 64-bit integers; nothing computes with them, so they
    are unbounded here. Prices are whole numbers of tenths of a million:
    `nowCost` is the API's raw price, and `priceTenths` stands for the
    `f64` number of millions multiplied by ten. */
module Models {

  datatype BootstrapTeam = BootstrapTeam(id: int, name: string)

  datatype BootstrapEvent = BootstrapEvent(id: int, isCurrent: bool)

  datatype BootstrapElement = BootstrapElement(id: int, webName: string, nowCost: int, team: int)

  datatype BootstrapData = BootstrapData(
    elements: seq<BootstrapElement>,
    events: seq<BootstrapEvent>,
    teams: seq<BootstrapTeam>)

  datatype PickElement = PickElement(isCaptain: bool, element: int)

  datatype PicksData = PicksData(picks: seq<PickElement>)

  datatype GameweekData = GameweekData(currentEvent: int, name: string, playerFirstName: string)

  datatype ValidationResult = ValidationResult(isValid: bool, reason: string)

  /** `ValidationResult::valid()`: a pass, with no reason. */
  function Valid(): (r: ValidationResult)
    ensures r.isValid && r.reason == ""
  {
    ValidationResult(true, "")
  }

  /** `ValidationResult::invalid(reason)`: a failure carrying its reason. */
  function Invalid(reason: string): (r: ValidationResult)
    ensures !r.isValid && r.reason == reason
  {
    ValidationResult(false, reason)
  }

  /** A pass is never equal to a failure, whatever the failure's reason;
      two failures are equal exactly when their reasons are. */
  lemma PassIsNotFailure(reason: string, other: string)
    ensures Valid() != Invalid(reason)
    ensures Invalid(reason) == Invalid(other) <==> reason == other
  {
  }

  datatype Club = Club(id: int, name: string)

  datatype Player = Player(id: int, name: string, priceTenths: int, club: Club)

  datatype Team = Team(id: int, name: string, owner: string, captain: Player, players: seq<Player>)

  /** `Club::default()`. */
  function DefaultClub(): (c: Club)
    ensures c.id == 0 && c.name == ""
  {
    Club(0, "")
  }

  /** `Player::default()`: the captain of a team whose picks flag none. */
  function DefaultPlayer(): (p: Player)
    ensures p.id == 0 && p.name == "" && p.priceTenths == 0 && p.club == DefaultClub()
  {
    Player(0, "", 0, DefaultClub())
  }
}
