# fpl-checker, modelled in Dafny

fpl-checker reads Fantasy Premier League documents and checks each
manager's team against three house rules:

- every player costs less than 10.0m;
- no two players come from clubs with the same name;
- the team has at least one player from every newly promoted club.

Each broken rule produces a message. The run keeps only the broken rules.

This project models the core of that program:

- **the records** (`Models`): the bootstrap, gameweek and picks documents, and the
  club, player, team and validation-result records;
- **the builders** (`Builders`): the club index and the player index from the
  bootstrap document, the team from a gameweek entry and its picks, and the
  current gameweek;
- **the rules and the aggregator** (`Validators`): the three rules, with the exact
  messages they write, and `run_and_retain_violations`, which appends the three
  verdicts to a results vector and keeps only the failures.

The builders and the rules are loops in the source. Here they are methods with
loop invariants. Each builder's contract describes its result directly:
keys, values, order and the fault it returns. Each rule method is proved
equal to a verdict function. Lemmas about those functions prove what the
rules mean:

- the price rule passes iff every player is under the ceiling, and the club rule passes iff no two club names are equal;
- those two rules report exactly the offenders, in the order of their first offending player in the team;
- the promoted-club rule checks the promoted ids in order and stops at the first one with no player in the team (`FirstUnrepresented`), naming only that club;
- keeping the failures is idempotent and distributes over appending.

The results vector is a class whose methods update its `items` field.

Supporting modules:

- `IndexMaps`: the insertion-ordered map (`IndexMap`) the rules use. It is a
  sequence of key/value pairs with `insert`, `entry(..).or_insert(..).push`
  and `retain`.
- `Text`: the list phrases ("a, b and c") and the printing of prices.
- `Outcomes`: `Option`, and `Result` with the faults that stand for the
  source's panics.
- `Examples`: the repository's rule tests, restated on small teams.

Modelling choices:

- **Prices** are whole numbers of tenths of a million: `now_cost` is already in
  tenths, so `now_cost / 10.0` millions is `now_cost` tenths. The 10.0m ceiling is
  `PRICE_CEILING_TENTHS = 100`. Rust's `{}` prints an `f64` that holds a whole
  number of tenths as its whole part, followed by `.d` when the tenths digit is
  not zero. `Text.FormatPrice` prints prices that way ("14", "10.5").
- **Panics** become `Err` results:
  - "Could not find a team" is `ClubNotFound`;
  - the `unwrap` of a missing pick is `PlayerNotFound`;
  - "Cannot determine current gameweek" is `NoCurrentGameweek`;
  - the `unwrap` of a missing promoted club is `ClubNotFound`.

  Each method returns the same fault the source would panic with, at the same
  point.
- **The newly promoted club ids** are the constant `NEWLY_PROMOTED_CLUBS` of
  `src/constants.rs`. That module is not part of this model, so the ids are a
  parameter `promoted: seq<int>`.
- **The club index type.** The rules take the club index as `HashMap<i64, String>`,
  while `build_clubs_by_id` returns `HashMap<i64, Club>`. The model uses one club
  index, `map<int, Club>`, everywhere. The promoted-club rule prints the club's
  `name`.
- **Message openings.** The rules write fixed openings: "Big wompers!",
  "has shat the bed" and "Yikes!". The model writes those strings.

## Model

| member | source | states |
|---|---|---|
| Models.Valid | src/models.rs:55-60 | `ValidationResult::valid()` passes and has an empty reason |
| Models.Invalid | src/models.rs:62-67 | `ValidationResult::invalid(reason)` fails and carries the given reason |
| Models.DefaultClub | src/models.rs:70-74 | the derived `Default` club has id 0 and an empty name |
| Models.DefaultPlayer | src/builders.rs:11 | the derived `Default` player (src/models.rs:76-82), the captain before any captain pick: id 0, empty name, price 0 and the default club |
| Builders.PlayerOf | src/builders.rs:64-77 | the player built from an element has the element's id, web name and price in tenths, and the element's team id with the name the club index gives for it |
| Text.FormatNat | src/validators.rs:27 | the whole part of a price is written in decimal digits, with no leading zero |
| Text.FormatPrice | src/validators.rs:27 | a printed price is nonempty and ends in a digit; it starts with '-' iff the price is negative; it has a '.' iff the tenths digit is not zero |
| Models.PassIsNotFailure | src/models.rs:54-67 | a passing result is never equal to a failing one, and two failing results are equal iff their reasons are |
| Builders.BuildClubsById | src/builders.rs:41-55 | the index has one key per bootstrap team id; each club carries its own id; the name is that of the last team with the id |
| Builders.BuildPlayersById | src/builders.rs:57-83 | fails iff some element's team id is missing from the club index, and then with `ClubNotFound` for the first such id; otherwise keys are exactly the element ids, and each player is built from the last element with its id, named after the club the index gives |
| Builders.BuildTeamFromData | src/builders.rs:4-39 | fails iff some pick's element is not indexed, and then with `PlayerNotFound` for the first; otherwise the team has the given id, the gameweek's name and first name, one player per pick in pick order (the indexed player under the pick's id); the captain is the player of the last captain pick, or `Player::default()` when no pick is captain |
| Builders.GetCurrentGameweek | src/builders.rs:85-93 | fails with `NoCurrentGameweek` iff no event is current; otherwise returns the id of the first current event |
| IndexMaps.Insert | src/validators.rs:11 | `insert`: a new key goes at the end, a present key keeps its place; the key then maps to the new value and every other key keeps its value |
| IndexMaps.Push | src/validators.rs:41-44 | `entry(k).or_insert(vec![]).push(x)`: a new key goes at the end; the key's list gains `x` at its end; every other key keeps its list |
| IndexMaps.Retain | src/validators.rs:47 | `retain` keeps exactly the entries the predicate accepts |
| IndexMaps.RetainKeepsOrder | src/validators.rs:47 | over distinct keys, retained entries keep their relative order |
| IndexMaps.FromPairsKeys | src/validators.rs:9-13 | the keys of a map built by successive inserts are the inserted keys in order of first appearance |
| IndexMaps.FromPairsLastWins | src/validators.rs:11 | a key maps to the value of its last insert |
| IndexMaps.GroupPairsKeys | src/validators.rs:40-45 | the keys of a grouping are the pair keys in order of first appearance |
| IndexMaps.GroupPairsValues | src/validators.rs:40-45 | a key is grouped iff some pair has it, and its list is every value paired with it, in order |
| IndexMaps.ValuesOfCount | src/validators.rs:47 | a key has at least two values iff two different pairs carry it |
| IndexMaps.FirstSeenCharacterized | src/validators.rs:9-13 | first-appearance order has no repeats, loses no key, and keeps keys in order of first appearance |
| Text.EnumeratedIsListPhrase | src/validators.rs:20-28 | the enumerating loop (nothing before the first item, " and " before the last, ", " before the others) writes the English list "a, b and c" after its prefix |
| Text.ParseFormatPrice | src/validators.rs:27 | the printed price gives the price back: printing loses no information |
| Text.FormatPriceInjective | src/validators.rs:27 | different prices are printed differently |
| Validators.TeamContainsPlayersUnder10M | src/validators.rs:6-35 | the result equals the price-ceiling verdict, and it passes iff every player costs less than 10.0m |
| Validators.CollectOverBudget | src/validators.rs:7-13 | the loop builds, by insert, the map of each player at or over 10.0m to their price |
| Validators.WriteOverBudget | src/validators.rs:15-28 | the loop writes the "Big wompers! … has gone overbudget with " opening, then the list phrase of the "name (price m)" items |
| Validators.OverBudgetPairsMembers | src/validators.rs:9-13 | the collected pairs are exactly the players at or over the ceiling, with their prices |
| Validators.PriceCeilingValidIff | src/validators.rs:30-34 | nothing is reported iff every player is under the ceiling |
| Validators.OverBudgetNames | src/validators.rs:9-13 | reported names are distinct and in order of their first over-ceiling player in the team |
| Validators.OverBudgetLastPrice | src/validators.rs:11 | a reported name carries the price of the last over-ceiling player with that name |
| Validators.TeamContainsAtMostOnePlayerPerClub | src/validators.rs:37-78 | the result equals the club verdict, and it passes iff no two players share a club name |
| Validators.GroupByClub | src/validators.rs:38-45 | the loop groups the players by club name, in team order |
| Validators.WriteClubReport | src/validators.rs:49-71 | the nested loops write, after the header, " more than 1 player from C " and the bracketed list phrase of C's players for each reported club in order |
| Validators.BracketedIsListPhrase | src/validators.rs:57-70 | the inner loop writes "(" + the list phrase of the names + ")" |
| Validators.SharedClubsGroups | src/validators.rs:40-47 | every reported club lists every player of that club, in team order, and has more than one |
| Validators.SharedClubsComplete | src/validators.rs:40-47 | every club shared by two players is reported |
| Validators.ClubRuleValidIff | src/validators.rs:73-77 | nothing is reported iff no two players share a club name |
| Validators.SharedClubsOrder | src/validators.rs:40-47 | reported clubs appear in the order of their first player in the team |
| Validators.FirstUnrepresented | src/validators.rs:84-85 | the first promoted club with no player in the team: every earlier one is represented and it is not |
| Validators.TeamContainsPlayersFromNewlyPromotedClubs | src/validators.rs:80-95 | the result equals the promoted-club verdict; it is `Ok` and passing iff every promoted club is represented; a failure names the first unrepresented club, with the owner; a missing index entry gives `ClubNotFound` |
| Validators.ViolationsMembers | src/validators.rs:109 | `retain(!is_valid)` keeps only failures, and every failure |
| Validators.ViolationsAppend | src/validators.rs:109 | keeping the failures of a concatenation keeps those of each part |
| Validators.ViolationsIdempotent | src/validators.rs:109 | keeping the failures twice is keeping them once |
| Validators.ValidationResults.Push | src/validators.rs:102-107 | `push` appends one result |
| Validators.ValidationResults.RetainViolations | src/validators.rs:109 | the loop leaves exactly the failures of the old contents, in order |
| Validators.RunAndRetainViolations | src/validators.rs:97-110 | a promoted-club fault leaves the price verdict pushed and aborts with that fault; otherwise the vector holds the old failures followed by the failing verdicts among price, promoted club and club, in that order, and nothing but failures |
| Examples.DuplicateArsenal | src/main.rs:108-118 | two Arsenal players: the club rule fails reporting Arsenal with Gabriel and Saliba |
| Examples.GabrielAndSaliba | src/main.rs:114 | the bracketed list of the two Arsenal players is "(Gabriel and Saliba)" |
| Examples.HaalandOverBudget | src/main.rs:130-139 | one player at 14.0m: the price rule fails with "… overbudget with Haaland (14m)" |
| Examples.PalmerAndHaalandVerdict | src/main.rs:141-150 | two players over the ceiling: the price rule lists "Palmer (10.5m) and Haaland (14m)" in team order |
| Examples.ValidTeamClubs | src/main.rs:120-128 | three players from three clubs pass the club rule |
| Examples.ValidTeamPrices | src/main.rs:152-160 | three players under the ceiling pass the price rule |
| Examples.MissingBurnley | src/main.rs:162-176 | with the promoted ids taken as [3, 7] (Burnley, then Chelsea standing in for the unseen constant), a team with a Chelsea player but no Burnley player fails the promoted-club rule, naming Burnley |
| Examples.ValidTeamPromoted | src/main.rs:178-189 | with the promoted ids taken as [3, 13] (Burnley and Man City standing in for the unseen constant), a team with a player from each passes the promoted-club rule |

## Left out

- `main`, and the `fetch_and_build_team` and `run_valiations` it calls: they are not defined in the modelled files. `api::fetch_data_as_json` is HTTP and JSON I/O.
- `src/constants.rs` is not part of this model. The promoted club ids are a parameter, and the URIs and team ids are I/O configuration.
- JSON (de)serialisation (`serde`) and `TeamsRequest`: they only map JSON to the records.
- The records' derived `Debug` and `Clone`: printing and copying have no counterpart in the model. The derived `PartialEq` is Dafny's datatype equality, which `Models.PassIsNotFailure` and the examples use the way the tests' `assert_eq!` does. The derived `Default` is `Models.DefaultClub` and `Models.DefaultPlayer`.
- `f64` arithmetic: prices are exact tenths, so `now_cost` values with a finer fraction, NaN and infinities are not modelled. The source's ≥ 10.0 comparison is `>= 100` tenths.
- The 64-bit width of `i64` ids: ids are only compared and looked up, never computed with, so no wrap-around arises.
- Hashing: `HashMap` is a Dafny `map`, and `IndexMap` is a sequence of pairs with linear lookup. Only the observable order and contents are modelled.
- The text of the `panic!` messages: a panic is an `Err` carrying the missing id.
- `Validators.CollectOverBudget`, `Validators.WriteOverBudget`, `Validators.GroupByClub` and `Validators.WriteClubReport` are the source's rule loops split into one method per loop. The rule methods call them in order.
- Examples: the expected messages are stated through the message functions plus the variable parts ("Haaland (14m)", "(Gabriel and Saliba)"), not as whole literals. The players stand in for the JSON samples, which are not part of this model.
