/** Which catalogue teams a user may still choose: a team used in any earlier
    pick, on any day, is gone for good. */
module Eligibility {
  import opened Records

  /** Some pick in `picks` lists a team with identifier `id`. */
  predicate UsedBy(picks: seq<Pick>, id: int)
  {
    exists k :: 0 <= k < |picks| && HasId(picks[k].teams, id)
  }

  /** No team of `offered` carries an identifier used by any pick. */
  predicate NoneUsed(offered: seq<Team>, picks: seq<Pick>)
  {
    forall t :: t in offered ==> !UsedBy(picks, t.id)
  }

  /** The identifiers of `teams`, in order. */
  function Ids(teams: seq<Team>): (ids: seq<int>)
    ensures |ids| == |teams|
    ensures forall i :: 0 <= i < |teams| ==> ids[i] == teams[i].id
    ensures forall id :: id in ids <==> HasId(teams, id)
  {
    if teams == [] then []
    else
      var rest := Ids(teams[1..]);
      assert forall id :: HasId(teams, id) <==> teams[0].id == id || HasId(teams[1..], id) by {
        forall id ensures HasId(teams, id) <==> teams[0].id == id || HasId(teams[1..], id) {
          if HasId(teams, id) && teams[0].id != id {
            var i :| 0 <= i < |teams| && teams[i].id == id;
            assert teams[1..][i - 1].id == id;
          }
          if HasId(teams[1..], id) {
            var i :| 0 <= i < |teams[1..]| && teams[1..][i].id == id;
            assert teams[i + 1].id == id;
          }
        }
      }
      [teams[0].id] + rest
  }

  /** Every identifier used by any pick, pick after pick, each pick's teams in order. */
  function UsedTeamIds(picks: seq<Pick>): (used: seq<int>)
    ensures forall id :: id in used <==> UsedBy(picks, id)
  {
    if picks == [] then []
    else
      var rest := UsedTeamIds(picks[1..]);
      assert forall id :: UsedBy(picks, id) <==> HasId(picks[0].teams, id) || UsedBy(picks[1..], id) by {
        forall id ensures UsedBy(picks, id) <==> HasId(picks[0].teams, id) || UsedBy(picks[1..], id) {
          if UsedBy(picks, id) && !HasId(picks[0].teams, id) {
            var k :| 0 <= k < |picks| && HasId(picks[k].teams, id);
            assert picks[1..][k - 1] == picks[k];
          }
          if UsedBy(picks[1..], id) {
            var k :| 0 <= k < |picks[1..]| && HasId(picks[1..][k].teams, id);
            assert picks[k + 1] == picks[1..][k];
          }
        }
      }
      Ids(picks[0].teams) + rest
  }

  /** The entries of `teams` whose identifier is not in `used`, in their order. */
  function Unused(teams: seq<Team>, used: seq<int>): (r: seq<Team>)
    ensures forall t :: t in r <==> t in teams && t.id !in used
    ensures IsSubsequence(r, teams)
  {
    if teams == [] then []
    else
      var rest := Unused(teams[1..], used);
      assert teams == [teams[0]] + teams[1..];
      if teams[0].id in used then
        SubsequenceSkip(teams[0], rest, teams[1..]);
        rest
      else
        SubsequenceCons(teams[0], rest, teams[1..]);
        [teams[0]] + rest
  }

  /** The filter keeps each unused entry exactly as often as it occurs and drops
      every used one, so repeated entries are neither merged nor lost. */
  lemma {:induction false} UnusedCounts(teams: seq<Team>, used: seq<int>)
    ensures forall t :: multiset(Unused(teams, used))[t] == if t.id in used then 0 else multiset(teams)[t]
  {
    if teams != [] {
      UnusedCounts(teams[1..], used);
      assert teams == [teams[0]] + teams[1..];
    }
  }

  /** The teams offered for selection: the catalogue in its own order, minus every
      team whose identifier appears in any earlier pick. */
  function Available(allTeams: seq<Team>, picks: seq<Pick>): (r: seq<Team>)
    ensures IsSubsequence(r, allTeams)
    ensures forall t :: t in r ==> !UsedBy(picks, t.id)
    ensures forall t :: t in allTeams && !UsedBy(picks, t.id) ==> t in r
  {
    Unused(allTeams, UsedTeamIds(picks))
  }

  /** Appending a pick appends its identifiers to the used list. */
  lemma {:induction false} UsedTeamIdsAppend(picks: seq<Pick>, p: Pick)
    ensures UsedTeamIds(picks + [p]) == UsedTeamIds(picks) + Ids(p.teams)
  {
    if picks == [] {
      assert [] + [p] == [p];
      assert [p][1..] == [];
    } else {
      assert (picks + [p])[1..] == picks[1..] + [p];
      UsedTeamIdsAppend(picks[1..], p);
    }
  }

  /** Filtering by two lists at once equals filtering by one, then by the other. */
  lemma {:induction false} UnusedTwice(teams: seq<Team>, a: seq<int>, b: seq<int>)
    ensures Unused(teams, a + b) == Unused(Unused(teams, a), b)
  {
    if teams != [] {
      UnusedTwice(teams[1..], a, b);
      var rest := Unused(teams[1..], a);
      if teams[0].id !in a {
        assert Unused(teams, a) == [teams[0]] + rest;
        assert ([teams[0]] + rest)[1..] == rest;
      }
    }
  }

  /** With no earlier picks, the whole catalogue is offered, unchanged. */
  lemma {:induction false} AvailableWithoutPicks(allTeams: seq<Team>)
    ensures Available(allTeams, []) == allTeams
  {
    UnusedNothing(allTeams);
  }

  lemma {:induction false} UnusedNothing(teams: seq<Team>)
    ensures Unused(teams, []) == teams
  {
    if teams != [] {
      UnusedNothing(teams[1..]);
    }
  }

  /** Recomputing availability after one more pick removes exactly that pick's
      teams from what was available before: nothing comes back, nothing else goes,
      and no team of the new pick stays available. */
  lemma AvailableAfterPick(allTeams: seq<Team>, picks: seq<Pick>, p: Pick)
    ensures Available(allTeams, picks + [p]) == Unused(Available(allTeams, picks), Ids(p.teams))
    ensures IsSubsequence(Available(allTeams, picks + [p]), Available(allTeams, picks))
    ensures forall t :: t in Available(allTeams, picks + [p]) ==> !HasId(p.teams, t.id)
  {
    UsedTeamIdsAppend(picks, p);
    UnusedTwice(allTeams, UsedTeamIds(picks), Ids(p.teams));
  }

  /** The catalogue instance: after a first pick of Duke and Alabama, the fourteen
      other teams remain, in catalogue order. */
  lemma CatalogueAfterFirstPick(date: Timestamp)
    ensures Available(Catalogue(), [Pick("Thursday", date, Catalogue()[..2])]) == Catalogue()[2..]
  {
    var cat := Catalogue();
    var p := Pick("Thursday", date, cat[..2]);
    assert p.teams == [cat[0], cat[1]];
    assert Ids(p.teams) == [1, 2] by {
      assert p.teams[1..] == [cat[1]];
      assert p.teams[1..][1..] == [];
    }
    assert UsedTeamIds([p]) == [1, 2] by {
      assert [p][1..] == [];
    }
    UnusedPrefix(cat, 2, [1, 2]);
  }

  /** When the used identifiers are exactly those of a catalogue prefix, filtering
      leaves the rest of the catalogue. */
  lemma {:induction false} UnusedPrefix(cat: seq<Team>, n: nat, used: seq<int>)
    requires n <= |cat|
    requires forall i :: 0 <= i < n ==> cat[i].id in used
    requires forall i :: n <= i < |cat| ==> cat[i].id !in used
    ensures Unused(cat, used) == cat[n..]
  {
    if cat != [] {
      var rest := cat[1..];
      var m := if n == 0 then 0 else n - 1;
      forall i | 0 <= i < m ensures rest[i].id in used {
        assert rest[i] == cat[i + 1];
      }
      forall i | m <= i < |rest| ensures rest[i].id !in used {
        assert rest[i] == cat[i + 1];
      }
      UnusedPrefix(rest, m, used);
      if n == 0 {
        assert cat[0].id !in used;
        assert cat == [cat[0]] + rest;
      } else {
        assert cat[0].id in used;
        assert cat[n..] == rest[m..];
      }
    }
  }
}
