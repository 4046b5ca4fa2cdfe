/** The pairing engine. It walks a working copy of the ranked standings: the top
    remaining player is taken off the front, the remaining players are scanned in
    rank order for the first one the top player has not met, that player is taken
    out too, and the two form a pairing. The pass stops when at most one player is
    left; an odd player out is not paired. When the scan finds no unmet opponent
    the pass reports the player it was stuck on. */
module Swiss {
  import opened Records

  /** The result of one pairing pass. */
  datatype Outcome =
    | Paired(pairs: seq<Pairing>)
      /** `player` had met every player still unpaired; `done` holds the pairs made before */
    | Unpairable(done: seq<Pairing>, player: int)

  /** The pairs an outcome has produced, finished or not. */
  function Emitted(o: Outcome): seq<Pairing>
  {
    if o.Paired? then o.pairs else o.done
  }

  /** The outcome o, with the pairs ps made before it placed in front. */
  function Extend(ps: seq<Pairing>, o: Outcome): (r: Outcome)
    ensures r.Paired? == o.Paired?
    ensures Emitted(r) == ps + Emitted(o)
  {
    match o
    case Paired(q) => Paired(ps + q)
    case Unpairable(q, p) => Unpairable(ps + q, p)
  }

  lemma ExtendTwice(a: seq<Pairing>, b: seq<Pairing>, o: Outcome)
    ensures Extend(a, Extend(b, o)) == Extend(a + b, o)
  {
    assert a + (b + Emitted(o)) == (a + b) + Emitted(o);
  }

  /** The pairing of a (listed first) with b: (id1, name1, id2, name2). */
  function MakePairing(a: Standing, b: Standing): Pairing
  {
    Pairing(a.id, a.name, b.id, b.name)
  }

  /** The ids a sequence of pairings uses, two per pairing, in order. */
  function PairIds(ps: seq<Pairing>): (r: seq<int>)
    ensures |r| == 2 * |ps|
  {
    if ps == [] then [] else [ps[0].id1, ps[0].id2] + PairIds(ps[1..])
  }

  /** The set of ids a sequence of pairings uses. */
  function UsedIds(ps: seq<Pairing>): set<int>
  {
    if ps == [] then {} else {ps[0].id1, ps[0].id2} + UsedIds(ps[1..])
  }

  /** The set of ids is the set of the ids listed: both name the same players. */
  lemma {:induction false} UsedIdsListed(ps: seq<Pairing>)
    ensures forall x :: x in UsedIds(ps) <==> x in PairIds(ps)
  {
    if ps != [] {
      UsedIdsListed(ps[1..]);
    }
  }

  /** w with its i-th row taken out (the list's pop(i)). */
  function RemoveAt(w: seq<Standing>, i: nat): (r: seq<Standing>)
    requires i < |w|
    ensures |r| == |w| - 1
  {
    w[..i] + w[i + 1..]
  }

  /** pop(i) takes out exactly the id of the row it removes. */
  lemma RemoveAtIds(w: seq<Standing>, i: nat)
    requires i < |w|
    ensures multiset(Ids(w)) == multiset(Ids(RemoveAt(w, i))) + multiset{w[i].id}
  {
    assert w == w[..i] + [w[i]] + w[i + 1..];
    IdsRemove(w[..i], w[i], w[i + 1..]);
  }

  /** The index at which the inner scan stops: the first row of rest that `id`
      has not met, or |rest| when `id` has met every row. */
  function Scan(id: int, rest: seq<Standing>, log: seq<MatchRecord>): (i: nat)
    ensures i <= |rest|
    ensures forall j :: 0 <= j < i ==> HasPlayed(log, id, rest[j].id)
    ensures i < |rest| ==> !HasPlayed(log, id, rest[i].id)
    decreases |rest|
  {
    if rest == [] || !HasPlayed(log, id, rest[0].id) then 0
    else 1 + Scan(id, rest[1..], log)
  }

  /** The outcome of the greedy pass over the working list `work`. */
  function Pairings(work: seq<Standing>, log: seq<MatchRecord>): (r: Outcome)
    ensures 2 * |Emitted(r)| <= |work|
    decreases |work|
  {
    if |work| <= 1 then Paired([])
    else
      var rest := work[1..];
      var i := Scan(work[0].id, rest, log);
      if i == |rest| then Unpairable([], work[0].id)
      else Extend([MakePairing(work[0], rest[i])], Pairings(RemoveAt(rest, i), log))
  }

  /** The inner scan of the pass: steps over the rows of rest that `id` has met
      and stops at the first one it has not, or at the end of rest. */
  method FirstUnmet(id: int, rest: seq<Standing>, log: seq<MatchRecord>) returns (i: nat)
    ensures i == Scan(id, rest, log)
  {
    i := 0;
    while i < |rest| && HasPlayed(log, id, rest[i].id)
      invariant i <= |rest|
      invariant forall j :: 0 <= j < i ==> HasPlayed(log, id, rest[j].id)
    {
      i := i + 1;
    }
    ScanStops(id, rest, log, i);
  }

  /** The scan stops at the first row `id` has not met: any index up to which
      every row has been met, and at which the rows run out or one has not
      been met, is Scan's. */
  lemma ScanStops(id: int, rest: seq<Standing>, log: seq<MatchRecord>, i: nat)
    requires i <= |rest|
    requires forall j :: 0 <= j < i ==> HasPlayed(log, id, rest[j].id)
    requires i < |rest| ==> !HasPlayed(log, id, rest[i].id)
    ensures i == Scan(id, rest, log)
  {
  }

  /** The pairing pass over the ranked standings, with the match log as the
      history oracle. The working list is consumed from the front. */
  method PairRound(standings: seq<Standing>, log: seq<MatchRecord>) returns (r: Outcome)
    ensures r == Pairings(standings, log)
  {
    var work := standings;
    var pairs: seq<Pairing> := [];
    while |work| > 1
      invariant Extend(pairs, Pairings(work, log)) == Pairings(standings, log)
      decreases |work|
    {
      ghost var w := work;
      var player1 := work[0];
      work := work[1..];
      var i := FirstUnmet(player1.id, work, log);
      if i == |work| {
        PairingsStuck(w, log);
        assert Extend(pairs, Unpairable([], player1.id)) == Unpairable(pairs, player1.id);
        return Unpairable(pairs, player1.id);
      }
      var player2 := work[i];
      PairingsStep(w, log);
      work := RemoveAt(work, i);
      ExtendTwice(pairs, [MakePairing(player1, player2)], Pairings(work, log));
      pairs := pairs + [MakePairing(player1, player2)];
    }
    assert Pairings(work, log) == Paired([]);
    r := Paired(pairs);
  }

  // Helpers on ids.

  lemma IdsTail(w: seq<Standing>)
    requires w != []
    ensures multiset(Ids(w)) == multiset{w[0].id} + multiset(Ids(w[1..]))
  {
    assert w == [w[0]] + w[1..];
    IdsConcat([w[0]], w[1..]);
    assert Ids([w[0]]) == [w[0].id];
  }

  lemma UniqueSub(a: seq<Standing>, b: seq<Standing>)
    requires multiset(Ids(a)) <= multiset(Ids(b))
    requires UniqueIds(b)
    ensures UniqueIds(a)
  {
    forall x ensures multiset(Ids(a))[x] <= 1 {
      assert multiset(Ids(a))[x] <= multiset(Ids(b))[x];
    }
  }

  /** Taking the top player off and then pop(i) leaves the ids of work less the two
      players paired. */
  lemma IdsAfterStep(work: seq<Standing>, i: nat)
    requires |work| >= 2 && i < |work| - 1
    ensures multiset(Ids(work)) ==
              multiset(Ids(RemoveAt(work[1..], i))) + multiset{work[0].id, work[1..][i].id}
  {
    IdsTail(work);
    RemoveAtIds(work[1..], i);
  }

  /** The pairs a pass emits, finished or not, use the input's ids, each at most
      as often as it occurs there. */
  lemma {:induction false} PairingsDrawFromInput(s: seq<Standing>, log: seq<MatchRecord>)
    ensures multiset(PairIds(Emitted(Pairings(s, log)))) <= multiset(Ids(s))
    decreases |s|
  {
    if |s| > 1 {
      var rest := s[1..];
      var i := Scan(s[0].id, rest, log);
      if i < |rest| {
        var p := MakePairing(s[0], rest[i]);
        var next := RemoveAt(rest, i);
        var e := Emitted(Pairings(next, log));
        PairingsDrawFromInput(next, log);
        assert Emitted(Pairings(s, log)) == [p] + e;
        PairIdsCons(p, e);
        IdsAfterStep(s, i);
        StepMultisets(multiset(Ids(s)), multiset(Ids(next)), multiset{s[0].id, rest[i].id},
                      multiset(PairIds(e)), multiset(PairIds([p] + e)));
      }
    }
  }

  /** A finished pass makes |s| / 2 pairs: each pairing takes two players off
      the list, and the pass stops with at most one left. */
  lemma {:induction false} PairingsCount(s: seq<Standing>, log: seq<MatchRecord>)
    ensures Pairings(s, log).Paired? ==> |Pairings(s, log).pairs| == |s| / 2
    decreases |s|
  {
    if |s| > 1 {
      var rest := s[1..];
      var i := Scan(s[0].id, rest, log);
      if i < |rest| {
        var next := RemoveAt(rest, i);
        PairingsCount(next, log);
        assert Pairings(s, log) == Extend([MakePairing(s[0], rest[i])], Pairings(next, log));
        HalfStep(|s|, |next|);
      }
    }
  }

  /** A finished pass leaves exactly |s| % 2 of the input's ids unused: with an
      even number of players every player is paired, with an odd number exactly
      one is left out. */
  lemma {:induction false} PairingsCover(s: seq<Standing>, log: seq<MatchRecord>)
    ensures Pairings(s, log).Paired? ==>
              |multiset(Ids(s)) - multiset(PairIds(Pairings(s, log).pairs))| == |s| % 2
    decreases |s|
  {
    if |s| <= 1 {
      assert Pairings(s, log) == Paired([]);
      assert multiset(PairIds([])) == multiset{};
    } else {
      var rest := s[1..];
      var i := Scan(s[0].id, rest, log);
      if i < |rest| {
        var p := MakePairing(s[0], rest[i]);
        var next := RemoveAt(rest, i);
        var tail := Pairings(next, log);
        assert Pairings(s, log) == Extend([p], tail);
        if tail.Paired? {
          var e := tail.pairs;
          assert Pairings(s, log).pairs == [p] + e;
          assert |multiset(Ids(s)) - multiset(PairIds([p] + e))| == |s| % 2 by {
            PairingsCover(next, log);
            PairingsDrawFromInput(next, log);
            PairIdsCons(p, e);
            IdsAfterStep(s, i);
            StepMultisets(multiset(Ids(s)), multiset(Ids(next)), multiset{s[0].id, rest[i].id},
                          multiset(PairIds(e)), multiset(PairIds([p] + e)));
            HalfStep(|s|, |next|);
          }
        }
      }
    }
  }

  lemma HalfStep(n: nat, m: nat)
    requires n == m + 2
    ensures n / 2 == m / 2 + 1 && n % 2 == m % 2
  {
  }

  lemma PairIdsCons(p: Pairing, e: seq<Pairing>)
    ensures PairIds([p] + e) == [p.id1, p.id2] + PairIds(e)
  {
    assert ([p] + e)[1..] == e;
  }

  lemma StepMultisets(S: multiset<int>, N: multiset<int>, X: multiset<int>, E: multiset<int>, P: multiset<int>)
    requires S == N + X && P == X + E && E <= N
    ensures P <= S && S - P == N - E
  {
  }

  lemma MultisetGapEmpty(A: multiset<int>, B: multiset<int>)
    requires B <= A && |A - B| == 0
    ensures A == B
  {
    assert A - B == multiset{};
    forall x ensures A[x] == B[x] {
      assert (A - B)[x] == 0;
    }
  }

  /** With an even number of players, a finished pass pairs every player. */
  lemma EvenRoundPairsEveryone(s: seq<Standing>, log: seq<MatchRecord>)
    requires |s| % 2 == 0
    ensures Pairings(s, log).Paired? ==>
              multiset(PairIds(Pairings(s, log).pairs)) == multiset(Ids(s))
  {
    PairingsDrawFromInput(s, log);
    PairingsCover(s, log);
    if Pairings(s, log).Paired? {
      MultisetGapEmpty(multiset(Ids(s)), multiset(PairIds(Pairings(s, log).pairs)));
    }
  }

  /** When no id occurs twice in the standings, no player is paired twice and
      no player is paired with themself. */
  lemma {:induction false} PairingsUsePlayersOnce(s: seq<Standing>, log: seq<MatchRecord>)
    requires UniqueIds(s)
    ensures forall x :: multiset(PairIds(Emitted(Pairings(s, log))))[x] <= 1
    ensures forall k :: 0 <= k < |Emitted(Pairings(s, log))| ==>
              Emitted(Pairings(s, log))[k].id1 != Emitted(Pairings(s, log))[k].id2
    decreases |s|
  {
    var o := Pairings(s, log);
    assert forall x :: multiset(PairIds(Emitted(o)))[x] <= 1 by {
      PairingsDrawFromInput(s, log);
      forall x ensures multiset(PairIds(Emitted(o)))[x] <= 1 {
        assert multiset(PairIds(Emitted(o)))[x] <= multiset(Ids(s))[x];
      }
    }
    if |s| > 1 {
      var rest := s[1..];
      var i := Scan(s[0].id, rest, log);
      if i < |rest| {
        var p := MakePairing(s[0], rest[i]);
        var next := RemoveAt(rest, i);
        var e := Emitted(Pairings(next, log));
        assert Emitted(o) == [p] + e;
        assert s[0].id != rest[i].id by {
          IdsAfterStep(s, i);
          var x := s[0].id;
          assert multiset(Ids(s))[x] >= multiset{x, rest[i].id}[x];
        }
        assert UniqueIds(next) by {
          IdsAfterStep(s, i);
          UniqueSub(next, s);
        }
        PairingsUsePlayersOnce(next, log);
        forall k | 0 <= k < |Emitted(o)| ensures Emitted(o)[k].id1 != Emitted(o)[k].id2 {
          if k > 0 {
            assert Emitted(o)[k] == e[k - 1];
          }
        }
      }
    }
  }

  /** No emitted pairing joins two players who have already met. */
  lemma {:induction false} PairingsAvoidRematches(s: seq<Standing>, log: seq<MatchRecord>)
    ensures forall k :: 0 <= k < |Emitted(Pairings(s, log))| ==>
              !HasPlayed(log, Emitted(Pairings(s, log))[k].id1, Emitted(Pairings(s, log))[k].id2)
    decreases |s|
  {
    if |s| > 1 {
      var rest := s[1..];
      var i := Scan(s[0].id, rest, log);
      if i < |rest| {
        PairingsAvoidRematches(RemoveAt(rest, i), log);
      }
    }
  }

  // The pass judged against the original ranking: at every step the working list
  // is exactly the ranked standings less the players already paired.

  /** The rows of s whose ids are not in used, in rank order. */
  function Unpaired(s: seq<Standing>, used: set<int>): seq<Standing>
  {
    if s == [] then []
    else if s[0].id in used then Unpaired(s[1..], used)
    else [s[0]] + Unpaired(s[1..], used)
  }

  /** The unpaired rows are drawn from s: none is added, and none is repeated more
      often than in s. */
  lemma {:induction false} UnpairedSub(s: seq<Standing>, used: set<int>)
    ensures |Unpaired(s, used)| <= |s|
    ensures multiset(Ids(Unpaired(s, used))) <= multiset(Ids(s))
  {
    if s != [] {
      var t := Unpaired(s[1..], used);
      UnpairedSub(s[1..], used);
      IdsTail(s);
      if s[0].id !in used {
        IdsCons(s[0], t);
      }
    }
  }

  /** One greedy step on the unpaired players rem emits p: p's first player is the
      top of rem, its second is the first player of rem (in rank order) whom the
      first has not met, and every player ranked between them has met the first. */
  ghost predicate GreedyChoice(rem: seq<Standing>, p: Pairing, log: seq<MatchRecord>)
  {
    && |rem| >= 2
    && p.id1 == rem[0].id && p.name1 == rem[0].name
    && exists i :: 1 <= i < |rem| && p.id2 == rem[i].id && p.name2 == rem[i].name
         && !HasPlayed(log, rem[0].id, rem[i].id)
         && forall j :: 1 <= j < i ==> HasPlayed(log, rem[0].id, rem[j].id)
  }

  /** The top of rem has met every other player in rem. */
  ghost predicate Stuck(rem: seq<Standing>, player: int, log: seq<MatchRecord>)
  {
    && |rem| >= 2
    && rem[0].id == player
    && forall j :: 1 <= j < |rem| ==> HasPlayed(log, player, rem[j].id)
  }

  lemma {:induction false} UnpairedIgnores(t: seq<Standing>, used: set<int>, x: int)
    requires multiset(Ids(t))[x] == 0
    ensures Unpaired(t, used + {x}) == Unpaired(t, used)
  {
    if t != [] {
      IdsTail(t);
      UnpairedIgnores(t[1..], used, x);
    }
  }

  /** Popping the i-th unpaired player is the same as marking it used. */
  lemma {:induction false} UnpairedRemove(s: seq<Standing>, used: set<int>, i: nat)
    requires UniqueIds(s)
    requires i < |Unpaired(s, used)|
    ensures RemoveAt(Unpaired(s, used), i) == Unpaired(s, used + {Unpaired(s, used)[i].id})
  {
    assert UniqueIds(s[1..]) && multiset(Ids(s[1..]))[s[0].id] == 0 by {
      IdsTail(s);
      UniqueSub(s[1..], s);
    }
    if s[0].id in used {
      assert Unpaired(s, used) == Unpaired(s[1..], used);
      UnpairedRemove(s[1..], used, i);
      RemoveSkipped(s, used, i);
    } else if i == 0 {
      UnpairedIgnores(s[1..], used, s[0].id);
      RemoveTop(s, used);
    } else {
      var t := Unpaired(s[1..], used);
      assert Unpaired(s, used) == [s[0]] + t;
      assert s[0].id != t[i - 1].id by {
        UnpairedSub(s[1..], used);
        assert t[i - 1].id in multiset(Ids(t)) by { assert Ids(t)[i - 1] == t[i - 1].id; }
      }
      UnpairedRemove(s[1..], used, i - 1);
      RemoveLater(s, used, i);
    }
  }

  lemma RemoveSkipped(s: seq<Standing>, used: set<int>, i: nat)
    requires s != [] && s[0].id in used
    requires i < |Unpaired(s[1..], used)|
    requires RemoveAt(Unpaired(s[1..], used), i) == Unpaired(s[1..], used + {Unpaired(s[1..], used)[i].id})
    ensures i < |Unpaired(s, used)|
    ensures RemoveAt(Unpaired(s, used), i) == Unpaired(s, used + {Unpaired(s, used)[i].id})
  {
  }

  lemma RemoveTop(s: seq<Standing>, used: set<int>)
    requires s != [] && s[0].id !in used
    requires Unpaired(s[1..], used + {s[0].id}) == Unpaired(s[1..], used)
    ensures 0 < |Unpaired(s, used)|
    ensures RemoveAt(Unpaired(s, used), 0) == Unpaired(s, used + {Unpaired(s, used)[0].id})
  {
    var t := Unpaired(s[1..], used);
    UnpairedKeep(s, used);
    UnpairedDrop(s, used + {s[0].id});
    assert RemoveAt([s[0]] + t, 0) == t;
  }

  lemma UnpairedDrop(s: seq<Standing>, used: set<int>)
    requires s != [] && s[0].id in used
    ensures Unpaired(s, used) == Unpaired(s[1..], used)
  {
  }

  lemma RemoveLater(s: seq<Standing>, used: set<int>, i: nat)
    requires s != [] && s[0].id !in used
    requires 1 <= i <= |Unpaired(s[1..], used)|
    requires s[0].id != Unpaired(s[1..], used)[i - 1].id
    requires RemoveAt(Unpaired(s[1..], used), i - 1) ==
             Unpaired(s[1..], used + {Unpaired(s[1..], used)[i - 1].id})
    ensures i < |Unpaired(s, used)|
    ensures RemoveAt(Unpaired(s, used), i) == Unpaired(s, used + {Unpaired(s, used)[i].id})
  {
    var t := Unpaired(s[1..], used);
    var x := t[i - 1].id;
    UnpairedKeep(s, used);
    UnpairedKeep(s, used + {x});
    RemoveAtCons(s[0], t, i);
  }

  lemma UnpairedKeep(s: seq<Standing>, used: set<int>)
    requires s != [] && s[0].id !in used
    ensures Unpaired(s, used) == [s[0]] + Unpaired(s[1..], used)
  {
  }

  lemma RemoveAtCons(a: Standing, w: seq<Standing>, i: nat)
    requires 1 <= i <= |w|
    ensures RemoveAt([a] + w, i) == [a] + RemoveAt(w, i - 1)
  {
    assert ([a] + w)[..i] == [a] + w[..i - 1];
    assert ([a] + w)[i + 1..] == w[i..];
  }

  /** The first pairing of a pass that does not get stuck is a greedy choice. */
  lemma FirstStepIsGreedy(w: seq<Standing>, log: seq<MatchRecord>)
    requires |w| >= 2
    requires Scan(w[0].id, w[1..], log) < |w| - 1
    ensures GreedyChoice(w, MakePairing(w[0], w[1..][Scan(w[0].id, w[1..], log)]), log)
  {
    var i := Scan(w[0].id, w[1..], log);
    forall j | 1 <= j < i + 1
      ensures HasPlayed(log, w[0].id, w[j].id)
    {
      assert w[j] == w[1..][j - 1];
    }
    assert w[i + 1] == w[1..][i];
  }

  lemma UnpairedNone(s: seq<Standing>)
    ensures Unpaired(s, {}) == s
  {
    if s != [] {
      UnpairedNone(s[1..]);
      assert s == [s[0]] + s[1..];
    }
  }

  lemma UsedIdsCons(p: Pairing, e: seq<Pairing>, k: nat)
    requires 0 < k <= |e| + 1
    ensures ([p] + e)[..k] == [p] + e[..k - 1]
    ensures UsedIds([p] + e[..k - 1]) == {p.id1, p.id2} + UsedIds(e[..k - 1])
  {
    assert ([p] + e[..k - 1])[1..] == e[..k - 1];
  }

  /** Every pairing o emits is a greedy choice over the rows of s not in used and
      not paired before it; o ends with at most one such row left, or stuck. */
  ghost predicate FollowsFrom(s: seq<Standing>, used: set<int>, o: Outcome, log: seq<MatchRecord>)
  {
    && (forall k :: 0 <= k < |Emitted(o)| ==>
          GreedyChoice(Unpaired(s, used + UsedIds(Emitted(o)[..k])), Emitted(o)[k], log))
    && (o.Paired? ==> |Unpaired(s, used + UsedIds(o.pairs))| <= 1)
    && (o.Unpairable? ==> Stuck(Unpaired(s, used + UsedIds(o.done)), o.player, log))
  }

  /** A greedy first choice followed by a pass that follows the ranking from the
      remaining players is a pass that follows the ranking. */
  lemma FollowsFromStep(s: seq<Standing>, used: set<int>, p: Pairing, tail: Outcome, log: seq<MatchRecord>)
    requires GreedyChoice(Unpaired(s, used), p, log)
    requires FollowsFrom(s, used + {p.id1, p.id2}, tail, log)
    ensures FollowsFrom(s, used, Extend([p], tail), log)
  {
    StepChoices(s, used, p, tail, log);
    assert used + UsedIds(Emitted(Extend([p], tail))) == used + {p.id1, p.id2} + UsedIds(Emitted(tail)) by {
      var e := Emitted(tail);
      assert ([p] + e)[1..] == e;
    }
  }

  lemma StepChoices(s: seq<Standing>, used: set<int>, p: Pairing, tail: Outcome, log: seq<MatchRecord>)
    requires GreedyChoice(Unpaired(s, used), p, log)
    requires FollowsFrom(s, used + {p.id1, p.id2}, tail, log)
    ensures forall k :: 0 <= k < |Emitted(Extend([p], tail))| ==>
              GreedyChoice(Unpaired(s, used + UsedIds(Emitted(Extend([p], tail))[..k])),
                           Emitted(Extend([p], tail))[k], log)
  {
    var o := Extend([p], tail);
    var e := Emitted(tail);
    forall k | 0 <= k < |Emitted(o)|
      ensures GreedyChoice(Unpaired(s, used + UsedIds(Emitted(o)[..k])), Emitted(o)[k], log)
    {
      if k == 0 {
        assert used + UsedIds(Emitted(o)[..0]) == used by {
          assert Emitted(o)[..0] == [];
        }
      } else {
        assert used + UsedIds(Emitted(o)[..k]) == used + {p.id1, p.id2} + UsedIds(e[..k - 1]) by {
          UsedIdsCons(p, e, k);
        }
        assert Emitted(o)[k] == e[k - 1];
      }
    }
  }

  /** The generalisation of FollowsRanking to a pass started on the players not in used. */
  lemma {:induction false} FollowsRankingFrom(s: seq<Standing>, used: set<int>, log: seq<MatchRecord>)
    requires UniqueIds(s)
    ensures FollowsFrom(s, used, Pairings(Unpaired(s, used), log), log)
    decreases |Unpaired(s, used)|
  {
    var w := Unpaired(s, used);
    if |w| <= 1 || Scan(w[0].id, w[1..], log) == |w| - 1 {
      FollowsFromLast(s, used, log);
    } else {
      var rest := w[1..];
      var i := Scan(w[0].id, rest, log);
      var p := MakePairing(w[0], rest[i]);
      var used2 := used + {p.id1, p.id2};
      var next := RemoveAt(rest, i);
      assert next == Unpaired(s, used2) by {
        var used1 := used + {w[0].id};
        UnpairedRemove(s, used, 0);
        assert RemoveAt(w, 0) == rest;
        UnpairedRemove(s, used1, i);
        assert used1 + {rest[i].id} == used2;
      }
      FollowsRankingFrom(s, used2, log);
      FirstStepIsGreedy(w, log);
      FollowsFromStep(s, used, p, Pairings(next, log), log);
      PairingsStep(w, log);
    }
  }

  /** A pass with at most one player, or stuck at once, follows the ranking. */
  lemma FollowsFromLast(s: seq<Standing>, used: set<int>, log: seq<MatchRecord>)
    requires var w := Unpaired(s, used); |w| <= 1 || Scan(w[0].id, w[1..], log) == |w| - 1
    ensures FollowsFrom(s, used, Pairings(Unpaired(s, used), log), log)
  {
    assert used + UsedIds([]) == used;
  }

  /** A pass whose top player has met everyone else stops on that player. */
  lemma PairingsStuck(w: seq<Standing>, log: seq<MatchRecord>)
    requires |w| >= 2 && Scan(w[0].id, w[1..], log) == |w| - 1
    ensures Pairings(w, log) == Unpairable([], w[0].id)
  {
  }

  /** One step of the pass, unfolded. */
  lemma PairingsStep(w: seq<Standing>, log: seq<MatchRecord>)
    requires |w| >= 2 && Scan(w[0].id, w[1..], log) < |w| - 1
    ensures var i := Scan(w[0].id, w[1..], log);
      Pairings(w, log) == Extend([MakePairing(w[0], w[1..][i])], Pairings(RemoveAt(w[1..], i), log))
  {
  }

  /** When no id occurs twice in the standings s, every pairing the pass emits is
      a greedy choice over the players not yet paired, in their standings order:
      its first player is the highest-ranked player still unpaired, its second
      the highest-ranked unpaired player the first has not met, and every unpaired
      player ranked between them has met the first. A finished pass leaves at most
      one player unpaired; a pass that gets stuck does so on a player who has met
      every other unpaired player. */
  lemma FollowsRanking(s: seq<Standing>, log: seq<MatchRecord>)
    requires UniqueIds(s)
    ensures var o := Pairings(s, log);
      && (forall k :: 0 <= k < |Emitted(o)| ==>
            GreedyChoice(Unpaired(s, UsedIds(Emitted(o)[..k])), Emitted(o)[k], log))
      && (o.Paired? ==> |Unpaired(s, UsedIds(o.pairs))| <= 1)
      && (o.Unpairable? ==> Stuck(Unpaired(s, UsedIds(o.done)), o.player, log))
  {
    UnpairedNone(s);
    FollowsRankingFrom(s, {}, log);
    forall u: set<int> ensures {} + u == u {
    }
  }

  // Rounds whose outcome is known in advance.

  /** Neighbours in the standings, paired in order: first with second, third
      with fourth, and so on; an odd last row is left out. */
  function Adjacent(s: seq<Standing>): (r: seq<Pairing>)
    ensures |r| == |s| / 2
  {
    if |s| <= 1 then [] else [MakePairing(s[0], s[1])] + Adjacent(s[2..])
  }

  /** The k-th neighbour pairing joins the rows at 2k and 2k + 1. */
  lemma {:induction false} AdjacentAt(s: seq<Standing>, k: nat)
    requires k < |s| / 2
    ensures Adjacent(s)[k] == MakePairing(s[2 * k], s[2 * k + 1])
  {
    if k > 0 {
      AdjacentAt(s[2..], k - 1);
      assert s[2..][2 * (k - 1)] == s[2 * k];
      assert s[2..][2 * (k - 1) + 1] == s[2 * k + 1];
    }
  }

  /** When no two players in s have met, the pass pairs neighbours in the
      standings and pairs every player but an odd last one. */
  lemma {:induction false} FreshRoundPairsNeighbours(s: seq<Standing>, log: seq<MatchRecord>)
    requires forall i, j :: 0 <= i < j < |s| ==> !HasPlayed(log, s[i].id, s[j].id)
    ensures Pairings(s, log) == Paired(Adjacent(s))
    decreases |s|
  {
    if |s| >= 2 {
      assert Scan(s[0].id, s[1..], log) == 0 by {
        assert !HasPlayed(log, s[0].id, s[1..][0].id);
      }
      assert RemoveAt(s[1..], 0) == s[2..];
      forall i, j | 0 <= i < j < |s[2..]|
        ensures !HasPlayed(log, s[2..][i].id, s[2..][j].id)
      {
        assert s[2..][i] == s[i + 2] && s[2..][j] == s[j + 2];
      }
      FreshRoundPairsNeighbours(s[2..], log);
      PairingsStep(s, log);
    }
  }

  /** When the top player has met every other player, the pass is stuck at once. */
  lemma TopPlayerExhausted(s: seq<Standing>, log: seq<MatchRecord>)
    requires |s| >= 2
    requires forall j :: 1 <= j < |s| ==> HasPlayed(log, s[0].id, s[j].id)
    ensures Pairings(s, log) == Unpairable([], s[0].id)
  {
  }

  /** Four players ranked P1, P2, P3, P4, where P1 has already beaten P2: the pass
      skips P2 for P1 and produces (P1, P3), then (P2, P4). */
  lemma SkipsPreviousOpponent()
    ensures var p1, p2, p3, p4 := Standing(1, "P1", 1, 1), Standing(2, "P2", 0, 1),
                                  Standing(3, "P3", 0, 0), Standing(4, "P4", 0, 0);
            Pairings([p1, p2, p3, p4], [MatchRecord(1, 2)]) ==
              Paired([MakePairing(p1, p3), MakePairing(p2, p4)])
  {
    var p1, p2, p3, p4 := Standing(1, "P1", 1, 1), Standing(2, "P2", 0, 1),
                          Standing(3, "P3", 0, 0), Standing(4, "P4", 0, 0);
    var log := [MatchRecord(1, 2)];
    assert log[..0] == [];
    assert HasPlayed(log, 1, 2) && !HasPlayed(log, 1, 3) && !HasPlayed(log, 2, 4);
    assert Scan(1, [p2, p3, p4], log) == 1 by {
      assert [p2, p3, p4][1..] == [p3, p4];
    }
    assert RemoveAt([p2, p3, p4], 1) == [p2, p4];
    assert Scan(2, [p4], log) == 0;
    assert RemoveAt([p4], 0) == [];
    PairingsStep([p1, p2, p3, p4], log);
    PairingsStep([p2, p4], log);
  }

  // The loop as written (tournament.py:147-153): its inner scan reads
  // standings[i] in the loop condition before testing i against the length of
  // the list, so once the top player has met every remaining row it reads one
  // row past the end.

  /** Every row the unchecked scan reads on work exists: at each step the scan
      stops at a row the top player has not met, before running off the list. */
  predicate InRangeAsWritten(work: seq<Standing>, log: seq<MatchRecord>)
    decreases |work|
  {
    |work| <= 1 ||
    (var rest := work[1..];
     var i := Scan(work[0].id, rest, log);
     i < |rest| && InRangeAsWritten(RemoveAt(rest, i), log))
  }

  /** The unchecked loop, defined only where it stays in range. */
  function PairingsAsWritten(work: seq<Standing>, log: seq<MatchRecord>): (r: seq<Pairing>)
    requires InRangeAsWritten(work, log)
    ensures |r| == |work| / 2
    decreases |work|
  {
    if |work| <= 1 then []
    else
      var rest := work[1..];
      var i := Scan(work[0].id, rest, log);
      [MakePairing(work[0], rest[i])] + PairingsAsWritten(RemoveAt(rest, i), log)
  }

  /** The unchecked loop stays in range exactly when the checked pass finishes,
      and then both produce the same pairs. */
  lemma {:induction false} AsWrittenAgrees(work: seq<Standing>, log: seq<MatchRecord>)
    ensures InRangeAsWritten(work, log) <==> Pairings(work, log).Paired?
    ensures InRangeAsWritten(work, log) ==> Pairings(work, log) == Paired(PairingsAsWritten(work, log))
    decreases |work|
  {
    if |work| >= 2 {
      var rest := work[1..];
      var i := Scan(work[0].id, rest, log);
      if i < |rest| {
        AsWrittenAgrees(RemoveAt(rest, i), log);
        PairingsStep(work, log);
      }
    }
  }

  /** Two players who have already met: the scan for P1's opponent moves past
      index 0 of the one-row list [P2], so the unchecked loop reads a row that
      does not exist. */
  lemma ScanOverrun()
    ensures var p1, p2 := Standing(1, "P1", 1, 1), Standing(2, "P2", 0, 1);
            Scan(1, [p2], [MatchRecord(1, 2)]) == |[p2]| &&
            !InRangeAsWritten([p1, p2], [MatchRecord(1, 2)])
  {
    var log := [MatchRecord(1, 2)];
    assert log[..0] == [];
    assert HasPlayed(log, 1, 2);
  }
}
