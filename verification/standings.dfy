/** The standings view: every player's row, ordered by wins, most wins first.
    The store's query leaves the order of tied players unspecified; the sort
    below fixes one admissible order, and its contract promises only what the
    query promises: non-increasing wins, and the same rows. */
module Standings {
  import opened Records

  /** Wins never increase from one row to a later one. */
  ghost predicate SortedByWins(s: seq<Standing>)
  {
    forall i, j :: 0 <= i < j < |s| ==> s[i].wins >= s[j].wins
  }

  lemma SortedCons(x: Standing, t: seq<Standing>)
    requires SortedByWins(t)
    requires t != [] ==> x.wins >= t[0].wins
    ensures SortedByWins([x] + t)
  {
    forall i, j | 0 <= i < j < |[x] + t|
      ensures ([x] + t)[i].wins >= ([x] + t)[j].wins
    {
      if i == 0 && j > 1 {
        assert t[0].wins >= t[j - 1].wins;
      }
    }
  }

  /** Puts e in front of the first row with no more wins than e. */
  function Insert(e: Standing, s: seq<Standing>): (r: seq<Standing>)
    requires SortedByWins(s)
    ensures |r| == |s| + 1
    ensures r[0] == e || (s != [] && r[0] == s[0])
    ensures SortedByWins(r)
    ensures multiset(r) == multiset(s) + multiset{e}
    ensures multiset(Ids(r)) == multiset(Ids(s)) + multiset{e.id}
  {
    if s == [] || e.wins >= s[0].wins then
      IdsCons(e, s);
      SortedCons(e, s);
      [e] + s
    else
      var t := Insert(e, s[1..]);
      assert s == [s[0]] + s[1..];
      IdsCons(s[0], s[1..]);
      IdsCons(s[0], t);
      SortedCons(s[0], t);
      [s[0]] + t
  }

  /** The rows of s ordered by wins, most wins first. */
  function SortByWins(s: seq<Standing>): (r: seq<Standing>)
    ensures |r| == |s|
    ensures SortedByWins(r)
    ensures multiset(r) == multiset(s)
    ensures multiset(Ids(r)) == multiset(Ids(s))
  {
    if s == [] then []
    else
      var t := SortByWins(s[1..]);
      assert s == [s[0]] + s[1..];
      IdsCons(s[0], s[1..]);
      Insert(s[0], t)
  }
}
