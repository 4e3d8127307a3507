/** The plain records the pick page works on: teams, submitted picks, and the
    hard-coded tournament catalogue. */
module Records {

  /** The submission time of a pick. The page stamps it with the clock's ISO-8601
      text; the model treats it as an opaque value supplied by the caller. */
  type Timestamp = string

  /** A tournament team as listed in the catalogue. */
  datatype Team = Team(id: int, name: string, seed: int, region: string)

  /** One submission: the day it was made for, when, and the teams chosen. */
  datatype Pick = Pick(day: string, date: Timestamp, teams: seq<Team>)

  /** Some entry of `teams` carries the identifier `id`. */
  predicate HasId(teams: seq<Team>, id: int)
  {
    exists i :: 0 <= i < |teams| && teams[i].id == id
  }

  /** No two entries of `teams` share an identifier. */
  predicate DistinctIds(teams: seq<Team>)
  {
    forall i, j :: 0 <= i < j < |teams| ==> teams[i].id != teams[j].id
  }

  /** `r` is `s` with some entries dropped and the rest kept in their order. */
  predicate IsSubsequence(r: seq<Team>, s: seq<Team>)
    decreases |s|
  {
    r == [] || (s != [] && ((r[0] == s[0] && IsSubsequence(r[1..], s[1..])) || IsSubsequence(r, s[1..])))
  }

  /** Prepending the same head to both sides keeps a subsequence one. */
  lemma SubsequenceCons(x: Team, r: seq<Team>, s: seq<Team>)
    requires IsSubsequence(r, s)
    ensures IsSubsequence([x] + r, [x] + s)
  {
    assert ([x] + r)[1..] == r;
    assert ([x] + s)[1..] == s;
  }

  /** Dropping the head of `s` only: a subsequence of the tail is one of the whole. */
  lemma SubsequenceSkip(x: Team, r: seq<Team>, s: seq<Team>)
    requires IsSubsequence(r, s)
    ensures IsSubsequence(r, [x] + s)
  {
    assert ([x] + s)[1..] == s;
  }

  /** The sixteen teams the page loads at start-up, in catalogue order. */
  function Catalogue(): (teams: seq<Team>)
    ensures |teams| == 16
    ensures forall i :: 0 <= i < |teams| ==> teams[i].id == i + 1
    ensures DistinctIds(teams)
  {
    [ Team(1, "Duke", 1, "East"),
      Team(2, "Alabama", 2, "East"),
      Team(3, "Wisconsin", 3, "East"),
      Team(4, "Houston", 1, "South"),
      Team(5, "Tennessee", 2, "South"),
      Team(6, "Florida", 1, "West"),
      Team(7, "St. John's", 2, "West"),
      Team(8, "Auburn", 1, "Midwest"),
      Team(9, "Michigan State", 2, "Midwest"),
      Team(10, "Iowa State", 3, "Midwest"),
      Team(11, "Texas A&M", 4, "Midwest"),
      Team(12, "Michigan", 5, "Midwest"),
      Team(13, "Ole Miss", 6, "Midwest"),
      Team(14, "Marquette", 7, "Midwest"),
      Team(15, "Louisville", 8, "Midwest"),
      Team(16, "Creighton", 9, "Midwest") ]
  }
}
