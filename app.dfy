/** The pick page's module-level state and the handlers that change it: loading
    the catalogue, recomputing which teams are offered, clicking a team, the
    Remove button, and submitting the prepared pick. */
module App {
  import opened Records
  import opened Eligibility
  import opened Selection

  /** What a click on a team did; `SelectionFull` is the case the page answers
      with an alert and no change. */
  datatype ToggleOutcome = Removed | Added | SelectionFull

  /** How a submission ended: refused for a wrong team count, recorded, or
      recorded in memory but not persisted (the page then reports a failure). */
  datatype SubmitOutcome = WrongCount | Submitted | StoreFailed

  class AppState {
    /** Teams offered for selection. */
    var availableTeams: seq<Team>
    /** Teams chosen so far for the pick being prepared, in click order. */
    var selectedTeams: seq<Team>
    /** How many teams a pick must hold; no handler reassigns it. */
    const requiredPicks: nat
    /** The tournament day a new pick is made for; no handler reassigns it. */
    const currentDay: string
    /** Picks already submitted, oldest first. */
    var previousPicks: seq<Pick>
    /** The full team catalogue. */
    var allTeams: seq<Team>

    /** The object invariant: the selection is within bound and has no repeats. */
    predicate Valid()
      reads this
    {
      WellFormed(selectedTeams, requiredPicks)
    }

    /** The offered teams are what the eligibility filter yields for the present
        catalogue and picks (true after every recomputation). */
    predicate AvailabilityCurrent()
      reads this
    {
      availableTeams == Available(allTeams, previousPicks)
    }

    /** No offered team carries the identifier of a team in a submitted pick: a
        team picked once is gone for good. */
    predicate OfferedUnused()
      reads this`availableTeams, this`previousPicks
    {
      NoneUsed(availableTeams, previousPicks)
    }

    /** The state as the page starts: two picks required, Thursday, nothing loaded. */
    constructor ()
      ensures Valid() && AvailabilityCurrent() && OfferedUnused()
      ensures availableTeams == [] && selectedTeams == [] && previousPicks == [] && allTeams == []
      ensures requiredPicks == 2 && currentDay == "Thursday"
    {
      availableTeams := [];
      selectedTeams := [];
      requiredPicks := 2;
      currentDay := "Thursday";
      previousPicks := [];
      allTeams := [];
    }

    /** Whether the submit button is disabled. Under the invariant it is disabled
        exactly while there is still room for another team. */
    function SubmitDisabled(): (disabled: bool)
      reads this
      requires Valid()
      ensures disabled <==> |selectedTeams| < requiredPicks
    {
      |selectedTeams| != requiredPicks
    }

    /** Installs the hard-coded catalogue; a signed-in user also gets the offered
        teams recomputed. */
    method LoadTeamsData(signedIn: bool)
      requires Valid()
      modifies this`allTeams, this`availableTeams
      ensures Valid()
      ensures allTeams == Catalogue()
      ensures signedIn ==> AvailabilityCurrent() && OfferedUnused()
      ensures !signedIn ==> availableTeams == old(availableTeams)
      ensures old(OfferedUnused()) ==> OfferedUnused()
    {
      allTeams := Catalogue();
      if signedIn {
        FetchAvailableTeams();
      }
    }

    /** Recomputes the offered teams: the catalogue in order, minus every team
        used by any earlier pick on any day. */
    method FetchAvailableTeams()
      requires Valid()
      modifies this`availableTeams
      ensures Valid() && AvailabilityCurrent() && OfferedUnused()
      ensures IsSubsequence(availableTeams, allTeams)
      ensures forall t :: t in availableTeams ==> !UsedBy(previousPicks, t.id)
      ensures forall t :: t in allTeams && !UsedBy(previousPicks, t.id) ==> t in availableTeams
    {
      availableTeams := Available(allTeams, previousPicks);
    }

    /** A click on `team`: a selected team is taken out in place, an unselected
        one is appended while fewer than `requiredPicks` are selected, otherwise
        nothing changes. */
    method ToggleTeamSelection(team: Team) returns (outcome: ToggleOutcome)
      requires Valid()
      modifies this`selectedTeams
      ensures Valid()
      ensures old(OfferedUnused()) ==> OfferedUnused()
      ensures selectedTeams == Toggled(old(selectedTeams), team, requiredPicks)
      ensures outcome == Removed <==> HasId(old(selectedTeams), team.id)
      ensures outcome == Removed ==> selectedTeams == WithoutId(old(selectedTeams), team.id)
      ensures outcome == Added <==> !HasId(old(selectedTeams), team.id) && |old(selectedTeams)| < requiredPicks
      ensures outcome == Added ==> selectedTeams == old(selectedTeams) + [team]
      ensures outcome == SelectionFull ==> selectedTeams == old(selectedTeams)
    {
      ghost var before := selectedTeams;
      ToggledSpec(before, team, requiredPicks);
      var index := FindIndex(selectedTeams, team.id);
      if index > -1 {
        selectedTeams := RemoveAt(selectedTeams, index);
        outcome := Removed;
      } else if |selectedTeams| < requiredPicks {
        selectedTeams := selectedTeams + [team];
        outcome := Added;
      } else {
        outcome := SelectionFull;
      }
      assert unchanged(this`availableTeams, this`previousPicks);
    }

    /** The Remove button: drops every selected entry carrying `teamId`. */
    method RemoveTeam(teamId: int)
      requires Valid()
      modifies this`selectedTeams
      ensures Valid()
      ensures old(OfferedUnused()) ==> OfferedUnused()
      ensures selectedTeams == WithoutId(old(selectedTeams), teamId)
      ensures !HasId(selectedTeams, teamId)
      ensures forall t :: t in selectedTeams <==> t in old(selectedTeams) && t.id != teamId
      ensures IsSubsequence(selectedTeams, old(selectedTeams))
    {
      selectedTeams := WithoutId(selectedTeams, teamId);
    }

    /** Submits the prepared pick, stamped `date`. Unless exactly `requiredPicks`
        teams are selected, nothing changes. Otherwise the pick is appended; if
        persisting it succeeds (`stored`) the selection is cleared and the offered
        teams recomputed, and if persisting fails both are left as they were. */
    method HandleSubmitPicks(date: Timestamp, stored: bool) returns (outcome: SubmitOutcome)
      requires Valid()
      modifies this`previousPicks, this`selectedTeams, this`availableTeams
      ensures Valid()
      ensures outcome == WrongCount <==> |old(selectedTeams)| != requiredPicks
      ensures outcome == WrongCount <==> old(SubmitDisabled())
      ensures outcome == Submitted <==> |old(selectedTeams)| == requiredPicks && stored
      ensures outcome == WrongCount ==>
                previousPicks == old(previousPicks) && selectedTeams == old(selectedTeams) &&
                availableTeams == old(availableTeams)
      ensures outcome != StoreFailed ==> old(OfferedUnused()) ==> OfferedUnused()
      ensures outcome != WrongCount ==>
                previousPicks == old(previousPicks) + [Pick(currentDay, date, old(selectedTeams))]
      ensures outcome == Submitted ==>
                selectedTeams == [] && AvailabilityCurrent() && OfferedUnused() &&
                IsSubsequence(availableTeams, Available(allTeams, old(previousPicks))) &&
                forall t :: t in availableTeams ==> !HasId(old(selectedTeams), t.id)
      ensures outcome == StoreFailed ==>
                selectedTeams == old(selectedTeams) && availableTeams == old(availableTeams)
    {
      if |selectedTeams| != requiredPicks {
        return WrongCount;
      }
      var newPick := Pick(currentDay, date, selectedTeams);
      previousPicks := previousPicks + [newPick];
      if !stored {
        return StoreFailed;
      }
      AvailableAfterPick(allTeams, old(previousPicks), newPick);
      selectedTeams := [];
      FetchAvailableTeams();
      outcome := Submitted;
    }
  }

  /** A storage failure breaks "gone for good". From any state that offers two
      distinct teams, with two picks required and nothing selected: select both,
      submit while persisting fails, and the pick is recorded while both teams stay
      selected and offered, so the submit button stays enabled; a second, successful
      submission then records the same two teams again. */
  method ResubmitAfterStoreFailure(app: AppState, a: Team, b: Team, first: Timestamp, second: Timestamp)
    returns (failed: SubmitOutcome, offeredAfterFailure: seq<Team>, picksAfterFailure: seq<Pick>, succeeded: SubmitOutcome)
    requires app.Valid() && app.requiredPicks == 2 && app.selectedTeams == []
    requires a in app.availableTeams && b in app.availableTeams && a.id != b.id
    modifies app
    ensures failed == StoreFailed && succeeded == Submitted
    ensures a in offeredAfterFailure && b in offeredAfterFailure
    ensures UsedBy(picksAfterFailure, a.id) && UsedBy(picksAfterFailure, b.id)
    ensures app.previousPicks ==
              old(app.previousPicks) + [Pick(app.currentDay, first, [a, b]), Pick(app.currentDay, second, [a, b])]
  {
    SelectBoth(app, a, b);
    failed := app.HandleSubmitPicks(first, false);
    offeredAfterFailure := app.availableTeams;
    picksAfterFailure := app.previousPicks;
    var last := |picksAfterFailure| - 1;
    assert picksAfterFailure[last].teams == [a, b];
    assert HasId(picksAfterFailure[last].teams, a.id) && HasId(picksAfterFailure[last].teams, b.id) by {
      assert [a, b][0] == a && [a, b][1] == b;
    }
    succeeded := app.HandleSubmitPicks(second, true);
  }

  /** The user clicks two distinct teams into an empty selection that has room
      for both. */
  method SelectBoth(app: AppState, a: Team, b: Team)
    requires app.Valid() && app.requiredPicks == 2 && app.selectedTeams == [] && a.id != b.id
    modifies app`selectedTeams
    ensures app.Valid() && app.selectedTeams == [a, b]
  {
    assert !HasId([], a.id);
    var clickedA := app.ToggleTeamSelection(a);
    assert app.selectedTeams == [a];
    assert !HasId([a], b.id);
    var clickedB := app.ToggleTeamSelection(b);
  }
}
