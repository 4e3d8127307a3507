/** The bounded list of teams the user has clicked for the pick being prepared,
    as values: the search, the click toggle and the Remove button. */
module Selection {
  import opened Records

  /** The invariant the page keeps on its selection: never more than the required
      number of teams, and never the same team twice. */
  predicate WellFormed(sel: seq<Team>, requiredPicks: nat)
  {
    |sel| <= requiredPicks && DistinctIds(sel)
  }

  /** The index of the first entry with identifier `id`, or -1 when there is none. */
  function FindIndex(sel: seq<Team>, id: int): (i: int)
    ensures -1 <= i < |sel|
    ensures i >= 0 ==> sel[i].id == id && forall j :: 0 <= j < i ==> sel[j].id != id
    ensures i == -1 <==> !HasId(sel, id)
  {
    if sel == [] then -1
    else if sel[0].id == id then 0
    else
      var k := FindIndex(sel[1..], id);
      assert HasId(sel, id) ==> HasId(sel[1..], id) by {
        if HasId(sel, id) {
          var j :| 0 <= j < |sel| && sel[j].id == id;
          assert sel[1..][j - 1].id == id;
        }
      }
      if k == -1 then -1 else k + 1
  }

  /** `sel` with its `i`-th entry taken out, the others closing up in order. */
  function RemoveAt(sel: seq<Team>, i: nat): (r: seq<Team>)
    requires i < |sel|
    ensures |r| == |sel| - 1
    ensures r[..i] == sel[..i] && r[i..] == sel[i + 1..]
    ensures multiset(r) == multiset(sel) - multiset{sel[i]}
  {
    assert sel == sel[..i] + [sel[i]] + sel[i + 1..];
    sel[..i] + sel[i + 1..]
  }

  /** The selection after a click on `team`: a selected team (found by identifier)
      is taken out; an unselected one is appended while there is room for it;
      otherwise the selection stays as it is. */
  function Toggled(sel: seq<Team>, team: Team, requiredPicks: nat): (r: seq<Team>)
    ensures |r| == |sel| - 1 <==> HasId(sel, team.id)
    ensures |r| == |sel| + 1 <==> !HasId(sel, team.id) && |sel| < requiredPicks
    ensures multiset(r) <= multiset(sel) + multiset{team}
    ensures |sel| <= requiredPicks ==> |r| <= requiredPicks
  {
    var i := FindIndex(sel, team.id);
    if i > -1 then RemoveAt(sel, i)
    else if |sel| < requiredPicks then sel + [team]
    else sel
  }

  /** `sel` without any entry carrying `id`, the others kept in order. */
  function WithoutId(sel: seq<Team>, id: int): (r: seq<Team>)
    ensures forall t :: t in r <==> t in sel && t.id != id
    ensures !HasId(r, id)
    ensures IsSubsequence(r, sel)
    ensures |r| <= |sel|
    ensures DistinctIds(sel) ==> DistinctIds(r)
  {
    if sel == [] then []
    else
      var rest := WithoutId(sel[1..], id);
      assert sel == [sel[0]] + sel[1..];
      if sel[0].id == id then
        SubsequenceSkip(sel[0], rest, sel[1..]);
        DistinctTail(sel);
        rest
      else
        SubsequenceCons(sel[0], rest, sel[1..]);
        DistinctTail(sel);
        if DistinctIds(sel) then DistinctCons(sel[0], rest); [sel[0]] + rest
        else [sel[0]] + rest
  }

  /** Remove keeps each entry without the identifier exactly as often as it occurs
      and drops every entry with it. */
  lemma {:induction false} WithoutIdCounts(sel: seq<Team>, id: int)
    ensures forall t :: multiset(WithoutId(sel, id))[t] == if t.id == id then 0 else multiset(sel)[t]
  {
    if sel != [] {
      WithoutIdCounts(sel[1..], id);
      assert sel == [sel[0]] + sel[1..];
    }
  }

  /** The tail of a list with distinct identifiers has distinct identifiers,
      none of them the head's. */
  lemma DistinctTail(s: seq<Team>)
    requires s != []
    ensures DistinctIds(s) ==> DistinctIds(s[1..]) && forall t :: t in s[1..] ==> t.id != s[0].id
  {
    if DistinctIds(s) {
      forall t | t in s[1..] ensures t.id != s[0].id {
        var j :| 0 <= j < |s[1..]| && s[1..][j] == t;
        assert s[j + 1] == t;
      }
    }
  }

  /** A head whose identifier no tail entry carries keeps the identifiers distinct. */
  lemma DistinctCons(x: Team, r: seq<Team>)
    requires DistinctIds(r)
    requires forall t :: t in r ==> t.id != x.id
    ensures DistinctIds([x] + r)
  {
    forall i, j | 0 <= i < j < |[x] + r| ensures ([x] + r)[i].id != ([x] + r)[j].id {
      if i == 0 {
        assert ([x] + r)[j] == r[j - 1];
        assert r[j - 1] in r;
      } else {
        assert ([x] + r)[i] == r[i - 1] && ([x] + r)[j] == r[j - 1];
      }
    }
  }

  /** Removing an identifier nobody carries leaves the selection unchanged. */
  lemma {:induction false} WithoutAbsentId(sel: seq<Team>, id: int)
    requires !HasId(sel, id)
    ensures WithoutId(sel, id) == sel
  {
    if sel != [] {
      assert sel[0].id != id;
      forall j | 0 <= j < |sel[1..]| ensures sel[1..][j].id != id {
        assert sel[1..][j] == sel[j + 1];
      }
      WithoutAbsentId(sel[1..], id);
      assert sel == [sel[0]] + sel[1..];
    }
  }

  /** Pressing Remove twice for the same team is the same as pressing it once. */
  lemma {:induction false} WithoutIdIdempotent(sel: seq<Team>, id: int)
    ensures WithoutId(WithoutId(sel, id), id) == WithoutId(sel, id)
  {
    WithoutAbsentId(WithoutId(sel, id), id);
  }

  /** Pressing Remove keeps the selection within bound and free of repeats. */
  lemma WithoutIdWellFormed(sel: seq<Team>, id: int, requiredPicks: nat)
    requires WellFormed(sel, requiredPicks)
    ensures WellFormed(WithoutId(sel, id), requiredPicks)
  {
  }

  /** With distinct identifiers, taking out the first entry carrying `id` is
      taking out every entry carrying it. */
  lemma {:induction false} RemoveFirstIsWithoutId(sel: seq<Team>, id: int)
    requires DistinctIds(sel) && HasId(sel, id)
    ensures RemoveAt(sel, FindIndex(sel, id)) == WithoutId(sel, id)
  {
    DistinctTail(sel);
    var tail := sel[1..];
    if sel[0].id == id {
      HeadIdNotInTail(sel);
      WithoutAbsentId(tail, id);
      assert RemoveAt(sel, 0) == tail;
    } else {
      var k := FindIndex(tail, id);
      assert k != -1;
      RemoveFirstIsWithoutId(tail, id);
      RemoveAtTail(sel, k);
    }
  }

  /** Taking out an entry past the head keeps the head in front. */
  lemma RemoveAtTail(sel: seq<Team>, k: nat)
    requires k + 1 < |sel|
    ensures RemoveAt(sel, k + 1) == [sel[0]] + RemoveAt(sel[1..], k)
  {
    assert sel[..k + 1] == [sel[0]] + sel[1..][..k];
    assert sel[k + 2..] == sel[1..][k + 1..];
  }

  /** In a list with distinct identifiers, the head's identifier is absent from the tail. */
  lemma HeadIdNotInTail(sel: seq<Team>)
    requires sel != [] && DistinctIds(sel)
    ensures !HasId(sel[1..], sel[0].id)
  {
    forall j | 0 <= j < |sel[1..]| ensures sel[1..][j].id != sel[0].id {
      assert sel[1..][j] == sel[j + 1];
    }
  }

  /** What a click does to a well-formed selection: a selected team leaves (and
      only it, the rest in order), an unselected team is appended exactly when
      there is room, and the selection stays well formed. */
  lemma ToggledSpec(sel: seq<Team>, team: Team, requiredPicks: nat)
    requires WellFormed(sel, requiredPicks)
    ensures HasId(sel, team.id) ==>
              Toggled(sel, team, requiredPicks) == WithoutId(sel, team.id) &&
              |Toggled(sel, team, requiredPicks)| == |sel| - 1
    ensures !HasId(sel, team.id) && |sel| < requiredPicks ==>
              Toggled(sel, team, requiredPicks) == sel + [team]
    ensures !HasId(sel, team.id) && |sel| >= requiredPicks ==>
              Toggled(sel, team, requiredPicks) == sel
    ensures WellFormed(Toggled(sel, team, requiredPicks), requiredPicks)
  {
    if HasId(sel, team.id) {
      RemoveFirstIsWithoutId(sel, team.id);
    } else if |sel| < requiredPicks {
      forall t | t in sel ensures t.id != team.id {
        var j :| 0 <= j < |sel| && sel[j] == t;
      }
      AppendDistinct(sel, team);
    }
  }

  /** Appending a team whose identifier is not yet present keeps identifiers distinct. */
  lemma AppendDistinct(sel: seq<Team>, team: Team)
    requires DistinctIds(sel)
    requires forall t :: t in sel ==> t.id != team.id
    ensures DistinctIds(sel + [team])
  {
    forall i, j | 0 <= i < j < |sel + [team]| ensures (sel + [team])[i].id != (sel + [team])[j].id {
      if j == |sel| {
        assert sel[i] in sel;
      }
    }
  }

  /** Clicking an unselected team and then clicking it again restores the
      selection, provided there was room for it. */
  lemma ToggleRoundTrip(sel: seq<Team>, team: Team, requiredPicks: nat)
    requires WellFormed(sel, requiredPicks)
    requires !HasId(sel, team.id) && |sel| < requiredPicks
    ensures Toggled(Toggled(sel, team, requiredPicks), team, requiredPicks) == sel
  {
    ToggledSpec(sel, team, requiredPicks);
    var added := sel + [team];
    assert FindIndex(added, team.id) == |sel| by {
      assert added[|sel|].id == team.id;
      forall k | 0 <= k < |sel| ensures added[k].id != team.id {
        assert added[k] == sel[k];
      }
    }
    assert added[..|sel|] == sel;
  }

  /** Clicking a selected team twice does not restore the selection: the team
      comes back at the end of the list. */
  lemma ToggleTwiceMovesToEnd(sel: seq<Team>, team: Team, requiredPicks: nat)
    requires WellFormed(sel, requiredPicks)
    requires team in sel
    ensures Toggled(Toggled(sel, team, requiredPicks), team, requiredPicks)
            == WithoutId(sel, team.id) + [team]
  {
    var j :| 0 <= j < |sel| && sel[j] == team;
    assert HasId(sel, team.id);
    ToggledSpec(sel, team, requiredPicks);
    var once := WithoutId(sel, team.id);
    ToggledSpec(once, team, requiredPicks);
  }
}
