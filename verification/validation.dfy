/** The handler's three input checks, tried in order; the first failing
    one is reported. */
module Validation {
  import opened Wrappers

  datatype ValidationError = InvalidTeamCount | NoPlayers | InsufficientPlayers

  /** The text shown for each error, always one full sentence. */
  function Message(e: ValidationError): (r: string)
    ensures |r| > 0 && r[|r| - 1] == '.'
  {
    match e
    case InvalidTeamCount => "Please enter a valid number of teams."
    case NoPlayers => "Please enter at least one player name."
    case InsufficientPlayers => "The number of players must be greater than or equal to the number of teams."
  }

  /** Checks the parsed team count (`None` for `NaN`) against the parsed
      players; on success yields the team count. */
  function Validate<T>(teamCount: Option<int>, players: seq<T>): (r: Result<nat, ValidationError>)
    ensures r == Failure(InvalidTeamCount) <==> teamCount.None? || teamCount.value <= 0
    ensures r == Failure(NoPlayers) <==> teamCount.Some? && teamCount.value > 0 && |players| == 0
    ensures r == Failure(InsufficientPlayers)
        <==> teamCount.Some? && teamCount.value > 0 && 0 < |players| < teamCount.value
    ensures r.Success? <==> teamCount.Some? && 1 <= teamCount.value <= |players|
    ensures r.Success? ==> r.value == teamCount.value && 1 <= r.value <= |players|
  {
    if teamCount.None? || teamCount.value <= 0 then Failure(InvalidTeamCount)
    else if |players| == 0 then Failure(NoPlayers)
    else if |players| < teamCount.value then Failure(InsufficientPlayers)
    else Success(teamCount.value)
  }

  /** Each error has its own message. */
  lemma MessagesDistinct(a: ValidationError, b: ValidationError)
    ensures Message(a) == Message(b) ==> a == b
  {
  }
}
