/** The tournament's record store: the registered contestants and the log of
    match results, with the operations that register players, record results
    and reset the tournament, and the queries that read them. Storage itself
    (connections, cursors, commits) is not modelled: each operation is one
    atomic step on the in-memory state. */
module Store {
  import opened Records
  import opened Standings
  import opened Swiss

  /** The position of the player with this id, if one is registered. */
  function Find(ps: seq<Player>, id: int): (r: Option<nat>)
    ensures r.Some? ==> r.value < |ps| && ps[r.value].id == id
    ensures r.None? ==> forall k :: 0 <= k < |ps| ==> ps[k].id != id
  {
    if ps == [] then None
    else if ps[0].id == id then Some(0)
    else match Find(ps[1..], id)
      case None => None
      case Some(k) => Some(k + 1)
  }

  /** A player's row after the result (winner, loser) is recorded. */
  function Credited(p: Player, winner: int, loser: int): Player
  {
    p.(wins := p.wins + (if p.id == winner then 1 else 0),
       losses := p.losses + (if p.id == loser then 1 else 0))
  }

  class Tournament {
    /** The contestants, in registration order. */
    var players: seq<Player>
    /** The match log, oldest first. */
    var matches: seq<MatchRecord>
    /** The id the store hands to the next registered player. */
    var nextId: int

    /** Ids are unique and already handed out; so are the ids in the log. */
    ghost predicate WellFormed()
      reads this
    {
      && (forall i, j :: 0 <= i < j < |players| ==> players[i].id != players[j].id)
      && (forall i :: 0 <= i < |players| ==> players[i].id < nextId)
      && (forall k :: 0 <= k < |matches| ==> matches[k].winner < nextId && matches[k].loser < nextId)
    }

    /** The object invariant: besides WellFormed, every player's counters are
        the number of matches the log records them winning and losing. */
    ghost predicate Valid()
      reads this
    {
      && WellFormed()
      && forall i :: 0 <= i < |players| ==>
           && players[i].wins == WinsOf(matches, players[i].id)
           && players[i].losses == LossesOf(matches, players[i].id)
    }

    predicate Registered(id: int)
      reads this
    {
      Find(players, id).Some?
    }

    /** An empty store; the first id handed out is 1. */
    constructor ()
      ensures Valid()
      ensures players == [] && matches == [] && nextId == 1
    {
      players := [];
      matches := [];
      nextId := 1;
    }

    /** Empties the match log, then sets every player's wins and losses to 0. */
    method DeleteMatches()
      requires WellFormed()
      modifies this
      ensures Valid()
      ensures matches == [] && nextId == old(nextId)
      ensures |players| == |old(players)|
      ensures forall k :: 0 <= k < |players| ==> players[k] == old(players[k]).(wins := 0, losses := 0)
    {
      matches := [];
      var i := 0;
      while i < |players|
        invariant 0 <= i <= |players| == |old(players)|
        invariant matches == [] && nextId == old(nextId)
        invariant forall k :: 0 <= k < i ==> players[k] == old(players[k]).(wins := 0, losses := 0)
        invariant forall k :: i <= k < |players| ==> players[k] == old(players[k])
      {
        players := players[i := players[i].(wins := 0, losses := 0)];
        i := i + 1;
      }
    }

    /** Removes every player; the match log is kept. */
    method DeletePlayers()
      requires WellFormed()
      modifies this
      ensures Valid()
      ensures players == [] && matches == old(matches) && nextId == old(nextId)
    {
      players := [];
    }

    /** Adds a player with a fresh id and no wins or losses. */
    method RegisterPlayer(name: string) returns (ok: bool)
      requires WellFormed()
      modifies this
      ensures WellFormed()
      ensures old(Valid()) ==> Valid()
      ensures ok
      ensures players == old(players) + [Player(old(nextId), name, 0, 0)]
      ensures matches == old(matches) && nextId > old(nextId)
    {
      NoRecordsOfFreshId(matches, nextId);
      players := players + [Player(nextId, name, 0, 0)];
      nextId := nextId + 1;
      ok := true;
    }

    /** Adds one to the wins of the registered player id. */
    method AddWin(id: int)
      requires WellFormed() && Registered(id)
      modifies this
      ensures WellFormed()
      ensures matches == old(matches) && nextId == old(nextId)
      ensures |players| == |old(players)|
      ensures forall k :: 0 <= k < |players| ==>
                players[k] == if old(players[k]).id == id
                              then old(players[k]).(wins := old(players[k]).wins + 1)
                              else old(players[k])
    {
      var k := Find(players, id).value;
      players := players[k := players[k].(wins := players[k].wins + 1)];
    }

    /** Adds one to the losses of the registered player id. */
    method AddLoss(id: int)
      requires WellFormed() && Registered(id)
      modifies this
      ensures WellFormed()
      ensures matches == old(matches) && nextId == old(nextId)
      ensures |players| == |old(players)|
      ensures forall k :: 0 <= k < |players| ==>
                players[k] == if old(players[k]).id == id
                              then old(players[k]).(losses := old(players[k]).losses + 1)
                              else old(players[k])
    {
      var k := Find(players, id).value;
      players := players[k := players[k].(losses := players[k].losses + 1)];
    }

    /** Records that winner beat loser: appends (winner, loser) to the log and
        credits one win to winner and one loss to loser. Both must be
        registered; otherwise nothing changes and the result is false. */
    method ReportMatch(winner: int, loser: int) returns (ok: bool)
      requires WellFormed()
      modifies this
      ensures WellFormed()
      ensures old(Valid()) ==> Valid()
      ensures ok == (old(Registered(winner)) && old(Registered(loser)))
      ensures ok ==> matches == old(matches) + [MatchRecord(winner, loser)]
      ensures ok ==> |players| == |old(players)| &&
                     forall k :: 0 <= k < |players| ==> players[k] == Credited(old(players[k]), winner, loser)
      ensures !ok ==> matches == old(matches) && players == old(players)
      ensures nextId == old(nextId)
    {
      if Find(players, winner).None? || Find(players, loser).None? {
        return false;
      }
      ghost var log := matches;
      ghost var before := players;
      matches := matches + [MatchRecord(winner, loser)];
      AddWin(winner);
      ghost var mid := players;
      AddLoss(loser);
      CreditedInTwoSteps(before, mid, players, winner, loser);
      CreditsKeepLog(before, players, log, winner, loser);
      ok := true;
    }

    /** The standings: every player's row (id, name, wins, wins + losses),
        ordered by wins, most wins first. */
    function PlayerStandings(): (r: seq<Standing>)
      reads this
      ensures |r| == |players|
      ensures SortedByWins(r)
      ensures multiset(r) == multiset(Views(players))
    {
      SortByWins(Views(players))
    }

    /** The number of registered players: the length of the standings. */
    function CountPlayers(): (n: nat)
      reads this
      ensures n == |PlayerStandings()|
    {
      |players|
    }

    /** The next round's pairings: the pairing pass over the current standings,
        with the match log as the history oracle. */
    method SwissPairings() returns (r: Outcome)
      ensures r == Pairings(PlayerStandings(), matches)
    {
      r := PairRound(PlayerStandings(), matches);
    }
  }

  /** Crediting every player with the result (w, l) keeps each player's counters
      equal to the counts the log records, once (w, l) is appended to it. */
  lemma CreditsMatchLog(before: seq<Player>, after: seq<Player>, log: seq<MatchRecord>, w: int, l: int)
    requires |after| == |before|
    requires forall k :: 0 <= k < |before| ==>
               before[k].wins == WinsOf(log, before[k].id) && before[k].losses == LossesOf(log, before[k].id)
    requires forall k :: 0 <= k < |after| ==> after[k] == Credited(before[k], w, l)
    ensures forall k :: 0 <= k < |after| ==>
              && after[k].wins == WinsOf(log + [MatchRecord(w, l)], after[k].id)
              && after[k].losses == LossesOf(log + [MatchRecord(w, l)], after[k].id)
  {
    forall k | 0 <= k < |after|
      ensures after[k].wins == WinsOf(log + [MatchRecord(w, l)], after[k].id)
      ensures after[k].losses == LossesOf(log + [MatchRecord(w, l)], after[k].id)
    {
      CountsAfterReport(log, w, l, before[k].id);
    }
  }

  /** A win credited to w, then a loss credited to l, is the result (w, l)
      credited to every player. */
  lemma CreditedInTwoSteps(before: seq<Player>, mid: seq<Player>, after: seq<Player>, w: int, l: int)
    requires |mid| == |before| && |after| == |mid|
    requires forall k :: 0 <= k < |mid| ==>
               mid[k] == if before[k].id == w then before[k].(wins := before[k].wins + 1) else before[k]
    requires forall k :: 0 <= k < |after| ==>
               after[k] == if mid[k].id == l then mid[k].(losses := mid[k].losses + 1) else mid[k]
    ensures forall k :: 0 <= k < |after| ==> after[k] == Credited(before[k], w, l)
  {
    forall k | 0 <= k < |after|
      ensures after[k] == Credited(before[k], w, l)
    {
      assert mid[k].id == before[k].id;
    }
  }

  /** If every counter agreed with the log before, crediting (w, l) keeps them in
      agreement with the log extended by (w, l). */
  lemma CreditsKeepLog(before: seq<Player>, after: seq<Player>, log: seq<MatchRecord>, w: int, l: int)
    requires |after| == |before|
    requires forall k :: 0 <= k < |after| ==> after[k] == Credited(before[k], w, l)
    ensures (forall k :: 0 <= k < |before| ==>
               before[k].wins == WinsOf(log, before[k].id) && before[k].losses == LossesOf(log, before[k].id))
            ==>
            (forall k :: 0 <= k < |after| ==>
               after[k].wins == WinsOf(log + [MatchRecord(w, l)], after[k].id) &&
               after[k].losses == LossesOf(log + [MatchRecord(w, l)], after[k].id))
  {
    if forall k :: 0 <= k < |before| ==>
         before[k].wins == WinsOf(log, before[k].id) && before[k].losses == LossesOf(log, before[k].id)
    {
      CreditsMatchLog(before, after, log, w, l);
    }
  }

  /** In a well-formed store no id occurs twice in the standings, so the pairing
      lemmas that need unique ids apply to the store's own pass, even after a
      direct AddWin or AddLoss. */
  lemma StandingsIdsUnique(t: Tournament)
    requires t.WellFormed()
    ensures UniqueIds(t.PlayerStandings())
  {
    DistinctIdsUnique(Views(t.players));
  }

  /** In a valid store every standings row is a registered player's row, and its
      wins and matches played are what the match log records for that id. */
  lemma StandingsReflectLog(t: Tournament)
    requires t.Valid()
    ensures forall k :: 0 <= k < |t.PlayerStandings()| ==>
              && t.Registered(t.PlayerStandings()[k].id)
              && t.PlayerStandings()[k].wins == WinsOf(t.matches, t.PlayerStandings()[k].id)
              && t.PlayerStandings()[k].matches ==
                   WinsOf(t.matches, t.PlayerStandings()[k].id) + LossesOf(t.matches, t.PlayerStandings()[k].id)
  {
    var r := t.PlayerStandings();
    forall k | 0 <= k < |r|
      ensures t.Registered(r[k].id)
      ensures r[k].wins == WinsOf(t.matches, r[k].id)
      ensures r[k].matches == WinsOf(t.matches, r[k].id) + LossesOf(t.matches, r[k].id)
    {
      assert r[k] in multiset(Views(t.players));
      var i :| 0 <= i < |t.players| && Views(t.players)[i] == r[k];
      assert Find(t.players, r[k].id).Some?;
    }
  }
}
