/** The `generateTeams` click handler and the part of the page state it
    updates: the current teams and the current error. */
module TeamGenerator {
  import opened Wrappers
  import opened JsText
  import opened JsParseInt
  import opened Players
  import opened Validation
  import opened RoundRobin

  /** `teams` and `error` as held by the page; `error` is `None` for `null`. */
  datatype Session = Session(teams: seq<seq<string>>, error: Option<ValidationError>)

  /** The state before any click: no teams, no error. */
  const Initial := Session([], None)

  /** The three checks applied to what `parseInt` and the line filter read
      from the two input fields. */
  function Check(numTeams: string, playerNames: string): (r: Result<nat, ValidationError>)
    ensures r.Success? <==>
              ParseInt(numTeams).Some? && 1 <= ParseInt(numTeams).value <= |ParsePlayers(playerNames)|
    ensures r.Success? ==> r.value == ParseInt(numTeams).value
    ensures r == Failure(InvalidTeamCount) <==> ParseInt(numTeams).None? || ParseInt(numTeams).value <= 0
  {
    Validate(ParseInt(numTeams), ParsePlayers(playerNames))
  }

  /** One click of "Generate Teams". `numTeams` and `playerNames` are the two
      input fields; `shuffled` stands for the order the random sort produced,
      which may be any rearrangement of the parsed players. On a validation
      error only the error changes; otherwise the error is cleared and the
      teams are replaced by the round-robin distribution of `shuffled`. */
  function Generate(s: Session, numTeams: string, playerNames: string, shuffled: seq<string>): (r: Session)
    requires multiset(shuffled) == multiset(ParsePlayers(playerNames))
    ensures Check(numTeams, playerNames).Failure? ==>
              r.teams == s.teams && r.error == Some(Check(numTeams, playerNames).error)
    ensures Check(numTeams, playerNames).Success? ==>
              && r.error == None
              && |r.teams| == Check(numTeams, playerNames).value
              && r.teams == Distribute(shuffled, |r.teams|)
              && multiset(Flatten(r.teams)) == multiset(ParsePlayers(playerNames))
              && forall j :: 0 <= j < |r.teams| ==> |r.teams[j]| == TeamSize(|shuffled|, |r.teams|, j) >= 1
  {
    match Check(numTeams, playerNames)
    case Failure(e) => s.(error := Some(e))
    case Success(k) =>
      assert |shuffled| == |ParsePlayers(playerNames)| by {
        assert |multiset(shuffled)| == |multiset(ParsePlayers(playerNames))|;
      }
      DistributeKeepsEveryPlayer(shuffled, k);
      DistributeShape(shuffled, k);
      DistributeBalanced(shuffled, k);
      Session(Distribute(shuffled, k), None)
  }

  /** A team count that is `NaN` or not positive is reported first, whatever
      the player text. */
  lemma InvalidCountReportedFirst(s: Session, numTeams: string, playerNames: string, shuffled: seq<string>)
    requires multiset(shuffled) == multiset(ParsePlayers(playerNames))
    requires ParseInt(numTeams).None? || ParseInt(numTeams).value <= 0
    ensures Generate(s, numTeams, playerNames, shuffled) == s.(error := Some(InvalidTeamCount))
  {
  }

  /** With a valid count, white-space-only player text reports the missing
      players. */
  lemma BlankTextReportsNoPlayers(s: Session, numTeams: string, playerNames: string, shuffled: seq<string>)
    requires multiset(shuffled) == multiset(ParsePlayers(playerNames))
    requires ParseInt(numTeams).Some? && ParseInt(numTeams).value > 0
    requires AllWhiteSpace(playerNames)
    ensures Generate(s, numTeams, playerNames, shuffled) == s.(error := Some(NoPlayers))
  {
    NoPlayersIffBlankText(playerNames);
  }

  /** Teams are produced exactly when the count is between one and the number
      of names; otherwise the previous teams stay on the page. */
  lemma GenerateSucceedsIff(s: Session, numTeams: string, playerNames: string, shuffled: seq<string>)
    requires multiset(shuffled) == multiset(ParsePlayers(playerNames))
    ensures Generate(s, numTeams, playerNames, shuffled).error.None? <==>
              ParseInt(numTeams).Some? && 1 <= ParseInt(numTeams).value <= |ParsePlayers(playerNames)|
    ensures Generate(s, numTeams, playerNames, shuffled).error.Some? ==>
              Generate(s, numTeams, playerNames, shuffled).teams == s.teams
  {
  }

  /** Clicking on a fresh page while the count field holds no digit (it
      starts as `""`, which `parseInt` reads as `NaN`) shows the
      invalid-count error and still no teams, whatever names were typed. */
  lemma FirstClickWithoutCount(numTeams: string, playerNames: string, shuffled: seq<string>)
    requires forall i :: 0 <= i < |numTeams| ==> !IsDecimalDigit(numTeams[i])
    requires multiset(shuffled) == multiset(ParsePlayers(playerNames))
    ensures Generate(Initial, numTeams, playerNames, shuffled) == Session([], Some(InvalidTeamCount))
  {
    ParseIntWithoutDigits(numTeams);
  }

  /** The five names of the scenario below, one per line. */
  const FiveNames: seq<string> := ["A", "B", "C", "D", "E"]

  lemma FiveNamesAreNames()
    ensures forall i :: 0 <= i < |FiveNames| ==> '\n' !in FiveNames[i] && IsName(FiveNames[i])
  {
    forall i | 0 <= i < |FiveNames|
      ensures IsName(FiveNames[i])
    {
      assert !IsWhiteSpace(FiveNames[i][0]);
    }
  }

  lemma ParseFiveNames()
    ensures ParsePlayers(Join(FiveNames, '\n')) == FiveNames
  {
    FiveNamesAreNames();
    ParsePlayersOfLines(FiveNames);
  }

  lemma DistributeFiveIntoTwo()
    ensures Distribute(FiveNames, 2) == [["A", "C", "E"], ["B", "D"]]
  {
    var teams := Distribute(FiveNames, 2);
    DistributeShape(FiveNames, 2);
    var first, second := ["A", "C", "E"], ["B", "D"];
    assert |teams[0]| == 3 && |teams[1]| == 2;
    assert FiveNames[0] == "A" && FiveNames[1] == "B" && FiveNames[2] == "C";
    assert FiveNames[3] == "D" && FiveNames[4] == "E";
    assert teams[0][0] == first[0] && teams[0][1] == first[1] && teams[0][2] == first[2];
    assert teams[1][0] == second[0] && teams[1][1] == second[1];
    assert teams[0] == [teams[0][0], teams[0][1], teams[0][2]];
    assert teams[1] == [teams[1][0], teams[1][1]];
  }

  /** Five names into two teams (a count field reading as 2, such as
      `"2"`, and a text area holding the names `A` to `E`, such as
      `Join(FiveNames, '\n')`): a team of three and a team of two, every
      name once. */
  lemma FiveIntoTwo(s: Session, numTeams: string, playerNames: string)
    requires ParseInt(numTeams) == Some(2)
    requires ParsePlayers(playerNames) == FiveNames
    ensures Generate(s, numTeams, playerNames, FiveNames) == Session([["A", "C", "E"], ["B", "D"]], None)
  {
    DistributeFiveIntoTwo();
  }

  /** One name cannot fill two teams; the previous teams stay. */
  lemma OneNameTwoTeams(s: Session, numTeams: string, playerNames: string)
    requires ParseInt(numTeams) == Some(2)
    requires ParsePlayers(playerNames) == ["A"]
    ensures Generate(s, numTeams, playerNames, ["A"]) == s.(error := Some(InsufficientPlayers))
  {
  }

  /** The inputs of the two scenarios above are what `parseInt` and the
      line filter read from the count `"2"` and from the names typed one per
      line. */
  lemma ScenarioInputs()
    ensures ParseInt("2") == Some(2)
    ensures ParsePlayers(Join(FiveNames, '\n')) == FiveNames
  {
    ParseIntDecimal(2, "");
    assert DecimalString(2) + "" == "2";
    ParseFiveNames();
  }
}
