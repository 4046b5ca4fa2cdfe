/** The entities of a Swiss-system tournament and the queries over its match log.
    Players and match results live in a record store (see module Store); this module
    holds their values and the read-only questions asked of the log. */
module Records {

  datatype Option<T> = None | Some(value: T)

  /** A registered contestant: id, name, and the two stored counters. */
  datatype Player = Player(id: int, name: string, wins: nat, losses: nat)

  /** One completed match, recorded as (winner, loser). */
  datatype MatchRecord = MatchRecord(winner: int, loser: int)

  /** One row of the standings: (id, name, wins, matches played). */
  datatype Standing = Standing(id: int, name: string, wins: nat, matches: nat)

  /** One proposed match of the next round: (id1, name1, id2, name2). */
  datatype Pairing = Pairing(id1: int, name1: string, id2: int, name2: string)

  /** The standings row of a player: matches played is wins plus losses. */
  function View(p: Player): (r: Standing)
    ensures r.id == p.id && r.name == p.name && r.wins == p.wins
    ensures r.wins <= r.matches && r.matches - r.wins == p.losses
  {
    Standing(p.id, p.name, p.wins, p.wins + p.losses)
  }

  function Views(ps: seq<Player>): (r: seq<Standing>)
    ensures |r| == |ps|
    ensures forall k :: 0 <= k < |ps| ==> r[k] == View(ps[k])
  {
    seq(|ps|, k requires 0 <= k < |ps| => View(ps[k]))
  }

  /** The ids of a sequence of standings rows, in order. */
  function Ids(s: seq<Standing>): (r: seq<int>)
    ensures |r| == |s|
  {
    seq(|s|, k requires 0 <= k < |s| => s[k].id)
  }

  /** No id occurs twice among the rows. */
  ghost predicate UniqueIds(s: seq<Standing>)
  {
    forall x :: multiset(Ids(s))[x] <= 1
  }

  lemma IdsConcat(a: seq<Standing>, b: seq<Standing>)
    ensures Ids(a + b) == Ids(a) + Ids(b)
  {
  }

  lemma IdsCons(x: Standing, t: seq<Standing>)
    ensures multiset(Ids([x] + t)) == multiset{x.id} + multiset(Ids(t))
  {
    IdsConcat([x], t);
    assert Ids([x]) == [x.id];
  }

  /** Removing one row removes exactly its id from the multiset of ids. */
  lemma IdsRemove(a: seq<Standing>, x: Standing, b: seq<Standing>)
    ensures multiset(Ids(a + [x] + b)) == multiset(Ids(a + b)) + multiset{x.id}
  {
    IdsConcat(a + [x], b);
    IdsConcat(a, [x]);
    IdsConcat(a, b);
  }

  /** Rows whose ids differ pairwise have unique ids. */
  lemma {:induction false} DistinctIdsUnique(v: seq<Standing>)
    requires forall i, j :: 0 <= i < j < |v| ==> v[i].id != v[j].id
    ensures UniqueIds(v)
  {
    if v != [] {
      assert v == [v[0]] + v[1..];
      IdsConcat([v[0]], v[1..]);
      assert Ids([v[0]]) == [v[0].id];
      DistinctIdsUnique(v[1..]);
      assert v[0].id !in Ids(v[1..]);
    }
  }

  /** Is m a record of a match between a and b, whichever of them won? */
  predicate Between(m: MatchRecord, a: int, b: int)
  {
    (m.winner == a && m.loser == b) || (m.winner == b && m.loser == a)
  }

  /** The number of recorded matches between a and b; HasPlayedMeansRecorded and
      HasPlayedSymmetric say when it is zero. */
  function PlayedCount(log: seq<MatchRecord>, a: int, b: int): (c: nat)
    ensures c <= |log|
  {
    if log == [] then 0
    else PlayedCount(log[..|log| - 1], a, b) + (if Between(log[|log| - 1], a, b) then 1 else 0)
  }

  /** The history oracle: have a and b met, in either role? Its meaning is
      stated by HasPlayedMeansRecorded and HasPlayedSymmetric. */
  predicate HasPlayed(log: seq<MatchRecord>, a: int, b: int): (r: bool)
    ensures r ==> log != []
  {
    PlayedCount(log, a, b) != 0
  }

  /** The number of recorded matches won by id. */
  function WinsOf(log: seq<MatchRecord>, id: int): nat
  {
    if log == [] then 0
    else WinsOf(log[..|log| - 1], id) + (if log[|log| - 1].winner == id then 1 else 0)
  }

  /** The number of recorded matches lost by id. */
  function LossesOf(log: seq<MatchRecord>, id: int): nat
  {
    if log == [] then 0
    else LossesOf(log[..|log| - 1], id) + (if log[|log| - 1].loser == id then 1 else 0)
  }

  /** HasPlayed holds exactly when some record names a and b as winner and loser,
      in either order. */
  lemma {:induction false} HasPlayedMeansRecorded(log: seq<MatchRecord>, a: int, b: int)
    ensures HasPlayed(log, a, b) <==>
              exists k :: 0 <= k < |log| && Between(log[k], a, b)
  {
    if log != [] {
      var init := log[..|log| - 1];
      HasPlayedMeansRecorded(init, a, b);
      if HasPlayed(init, a, b) {
        var k :| 0 <= k < |init| && Between(init[k], a, b);
        assert log[k] == init[k];
      }
      if k :| 0 <= k < |log| && Between(log[k], a, b) {
        if k < |log| - 1 {
          assert init[k] == log[k];
        }
      }
    }
  }

  /** The oracle does not depend on which player is asked about first. */
  lemma {:induction false} HasPlayedSymmetric(log: seq<MatchRecord>, a: int, b: int)
    ensures PlayedCount(log, a, b) == PlayedCount(log, b, a)
    ensures HasPlayed(log, a, b) == HasPlayed(log, b, a)
  {
    if log != [] {
      HasPlayedSymmetric(log[..|log| - 1], a, b);
    }
  }

  /** Appending the record (w, l) adds one win for w and one loss for l; no
      other player's counts change. */
  lemma CountsAfterReport(log: seq<MatchRecord>, w: int, l: int, id: int)
    ensures WinsOf(log + [MatchRecord(w, l)], id) == WinsOf(log, id) + (if id == w then 1 else 0)
    ensures LossesOf(log + [MatchRecord(w, l)], id) == LossesOf(log, id) + (if id == l then 1 else 0)
  {
    assert (log + [MatchRecord(w, l)])[..|log|] == log;
  }

  /** After the record (w, l) is appended, two players have met exactly when they
      had met before or they are w and l. */
  lemma HasPlayedAfterReport(log: seq<MatchRecord>, w: int, l: int, a: int, b: int)
    ensures HasPlayed(log + [MatchRecord(w, l)], a, b) <==>
              HasPlayed(log, a, b) || Between(MatchRecord(w, l), a, b)
  {
    assert (log + [MatchRecord(w, l)])[..|log|] == log;
  }

  /** An id above every id in the log has neither wins nor losses. */
  lemma {:induction false} NoRecordsOfFreshId(log: seq<MatchRecord>, bound: int)
    requires forall k :: 0 <= k < |log| ==> log[k].winner < bound && log[k].loser < bound
    ensures WinsOf(log, bound) == 0 && LossesOf(log, bound) == 0
  {
    if log != [] {
      NoRecordsOfFreshId(log[..|log| - 1], bound);
    }
  }
}
