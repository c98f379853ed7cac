/** Optional values and failures.

    The program aborts (panics) when a key it looks up is missing from an
    index, or when the bootstrap document names no current gameweek. The
    model turns each such abort into an `Err` carrying a `Fault`, so that a
    caller can tell an integrity failure apart from a rule violation. */
module Outcomes {

  datatype Option<T> = None | Some(value: T)

  datatype Fault =
    /** `unwrap()` on a pick whose element is not in the player index */
    | PlayerNotFound(playerId: int)
    /** "Could not find a team", or `unwrap()` on a club id missing from the club index */
    | ClubNotFound(clubId: int)
    /** "Cannot determine current gameweek" */
    | NoCurrentGameweek

  datatype Result<T> = Ok(value: T) | Err(fault: Fault)
}
