/** The turn protocol of `Game.play`, pulled out of its loops as pure steps
    over the players and the turn order.  Players are a sequence indexed by
    seat; the turn order is a sequence of seats.  Random draws and strategy
    answers are parameters. */
module Games {
  import opened JavaLang
  import opened Players
  import opened Orders

  /** A turn order: distinct seats of players still in the game. */
  predicate ValidOrder(ps: seq<Player>, order: seq<nat>) {
    InRange(ps, order) && Distinct(order)
  }

  /** With numbered players, `equals` holds exactly between a seat and
      itself. */
  lemma EqualsSameSeat(ps: seq<Player>, i: nat, j: nat)
    requires Numbered(ps) && i < |ps| && j < |ps|
    ensures Equals(ps[i], ps[j]) <==> i == j
  {
  }

  // ----- setting up a game -----

  /** The reset at the start of `play`: every player numbered by seat with
      all counters 0, and a turn order of every seat in seat order. */
  function Reset(ps: seq<Player>): (r: (seq<Player>, seq<nat>))
    ensures |r.0| == |ps| && Numbered(r.0) && ValidOrder(r.0, r.1)
    ensures forall i :: 0 <= i < |ps| ==>
              r.0[i] == ps[i].(num := r.0[i].num, score := 0, earned := 0, passed := 0, whammies := 0)
    ensures |r.1| == |ps| && forall k :: 0 <= k < |ps| ==> r.1[k] == k
  {
    (seq(|ps|, i requires 0 <= i < |ps| => ps[i].(num := i + 1, score := 0, earned := 0, passed := 0, whammies := 0)),
     seq(|ps|, k => k))
  }

  // ----- spin allocation -----

  /** Spins for the player who buzzed in, when their test succeeds. */
  const FavouredSpins := 3
  /** Spins for any other player whose test succeeds. */
  const OtherSpins := 1
  /** Allocation draws per round. */
  const AllocationDraws := 4

  /** One allocation draw: the favoured position in the turn order (the
      `nextInt(turnOrder.size())` draw) and, for each position, whether its
      probability test succeeded (0.6 for the favoured position, 0.8 for the
      others). */
  datatype AllocDraw = AllocDraw(favoured: int, hits: seq<bool>)

  predicate DrawFor(order: seq<nat>, d: AllocDraw) {
    DrawFits(|order|, d.favoured) && |d.hits| == |order|
  }

  /** Spins won at position `k` of the turn order. */
  function Award(k: int, favoured: int, hit: bool): (n: nat)
    ensures n <= FavouredSpins
    ensures n > 0 <==> hit
    ensures hit && k == favoured ==> n == FavouredSpins
    ensures hit && k != favoured ==> n == OtherSpins
  {
    if !hit then 0 else if k == favoured then FavouredSpins else OtherSpins
  }

  /** Only earned spins change, they do not decrease and grow by at most
      `bound`; players outside the turn order do not change. */
  predicate OnlyEarnedGrows(ps: seq<Player>, r: seq<Player>, order: seq<nat>, bound: int) {
    && |r| == |ps|
    && (forall j :: 0 <= j < |ps| ==>
          && r[j] == ps[j].(earned := r[j].earned)
          && ps[j].earned <= r[j].earned <= ps[j].earned + bound)
    && (forall j :: 0 <= j < |ps| && j !in order ==> r[j] == ps[j])
  }

  /** Adds draw `d`'s spins for positions `k..` of the turn order. */
  function AwardFrom(ps: seq<Player>, order: seq<nat>, d: AllocDraw, k: nat): (r: seq<Player>)
    requires ValidOrder(ps, order) && |d.hits| == |order| && k <= |order|
    ensures |r| == |ps|
    ensures forall m :: k <= m < |order| ==>
              r[order[m]] == ps[order[m]].(earned := ps[order[m]].earned + Award(m, d.favoured, d.hits[m]))
    ensures forall j :: 0 <= j < |ps| && j !in order[k..] ==> r[j] == ps[j]
    decreases |order| - k
  {
    if k == |order| then ps
    else
      var j := order[k];
      var ps' := ps[j := ps[j].(earned := ps[j].earned + Award(k, d.favoured, d.hits[k]))];
      assert order[k..] == [j] + order[k + 1..];
      assert j !in order[k + 1..];
      AwardFrom(ps', order, d, k + 1)
  }

  /** One of the round's draws.  None: the turn order is empty and
      `nextInt(0)` throws. */
  function AllocateOnce(ps: seq<Player>, order: seq<nat>, d: AllocDraw): (r: Option<seq<Player>>)
    requires ValidOrder(ps, order) && DrawFor(order, d)
    ensures r.Some? <==> |order| > 0
    ensures r.Some? ==> OnlyEarnedGrows(ps, r.value, order, FavouredSpins)
    ensures r.Some? ==> forall m :: 0 <= m < |order| ==>
              r.value[order[m]].earned == ps[order[m]].earned + Award(m, d.favoured, d.hits[m])
  {
    match NextInt(|order|, d.favoured)
    case None => None
    case Some(_) =>
      var r := AwardFrom(ps, order, d, 0);
      assert order[0..] == order;
      assert forall m :: 0 <= m < |order| ==> Award(m, d.favoured, d.hits[m]) <= FavouredSpins;
      Some(r)
  }

  /** Spins won at position `m` of the turn order over all of `draws`. */
  function Awarded(order: seq<nat>, draws: seq<AllocDraw>, m: nat): nat
    requires m < |order| && forall q :: 0 <= q < |draws| ==> DrawFor(order, draws[q])
    decreases |draws|
  {
    if |draws| == 0 then 0
    else
      assert DrawFor(order, draws[0]);
      Award(m, draws[0].favoured, draws[0].hits[m]) + Awarded(order, draws[1..], m)
  }

  /** Draws in which position `m` hit. */
  function Hits(order: seq<nat>, draws: seq<AllocDraw>, m: nat): nat
    requires m < |order| && forall q :: 0 <= q < |draws| ==> DrawFor(order, draws[q])
    decreases |draws|
  {
    if |draws| == 0 then 0
    else
      assert DrawFor(order, draws[0]);
      (if draws[0].hits[m] then 1 else 0) + Hits(order, draws[1..], m)
  }

  /** Each hit wins between one and three spins, so a position wins nothing
      exactly when it never hits, and never more than three spins a hit. */
  lemma {:induction false} AwardedBetweenHits(order: seq<nat>, draws: seq<AllocDraw>, m: nat)
    requires m < |order| && forall q :: 0 <= q < |draws| ==> DrawFor(order, draws[q])
    ensures OtherSpins * Hits(order, draws, m) <= Awarded(order, draws, m) <= FavouredSpins * Hits(order, draws, m)
    ensures Awarded(order, draws, m) == 0 <==> Hits(order, draws, m) == 0
    ensures (forall q :: 0 <= q < |draws| ==> draws[q].favoured != m) ==>
              Awarded(order, draws, m) == OtherSpins * Hits(order, draws, m)
    decreases |draws|
  {
    if |draws| > 0 {
      AwardedBetweenHits(order, draws[1..], m);
    }
  }

  /** The draws of a round in turn, as the loop is written: with an empty
      turn order the first draw throws. */
  function AllocateAsWritten(ps: seq<Player>, order: seq<nat>, draws: seq<AllocDraw>): (r: Option<seq<Player>>)
    requires ValidOrder(ps, order) && forall q :: 0 <= q < |draws| ==> DrawFor(order, draws[q])
    ensures r.Some? <==> |order| > 0 || |draws| == 0
    ensures r.Some? ==> OnlyEarnedGrows(ps, r.value, order, FavouredSpins * |draws|)
    ensures r.Some? ==> forall m :: 0 <= m < |order| ==>
              r.value[order[m]].earned == ps[order[m]].earned + Awarded(order, draws, m)
    decreases |draws|
  {
    if |draws| == 0 then Some(ps)
    else
      match AllocateOnce(ps, order, draws[0])
      case None => None
      case Some(ps') =>
        assert ValidOrder(ps', order);
        var r := AllocateAsWritten(ps', order, draws[1..]);
        assert forall q :: 0 <= q < |draws[1..]| ==> draws[1..][q] == draws[q + 1];
        r
  }

  /** The allocation with the empty turn order handled: when every player
      has been eliminated there is nobody to give spins to. */
  function Allocate(ps: seq<Player>, order: seq<nat>, draws: seq<AllocDraw>): (r: seq<Player>)
    requires ValidOrder(ps, order) && forall q :: 0 <= q < |draws| ==> DrawFor(order, draws[q])
    ensures OnlyEarnedGrows(ps, r, order, FavouredSpins * |draws|)
    ensures |order| == 0 ==> r == ps
    ensures |order| > 0 ==> Some(r) == AllocateAsWritten(ps, order, draws)
    ensures forall m :: 0 <= m < |order| ==> r[order[m]].earned == ps[order[m]].earned + Awarded(order, draws, m)
  {
    if |order| == 0 then ps else AllocateAsWritten(ps, order, draws).value
  }

  /** Once every player has been eliminated, the next board's allocation
      throws, although the game has a message for ending with no winner. */
  lemma EmptyOrderAllocationThrows(ps: seq<Player>, draws: seq<AllocDraw>)
    requires |draws| == AllocationDraws && forall q :: 0 <= q < |draws| ==> DrawFor([], draws[q])
    ensures AllocateAsWritten(ps, [], draws).None?
    ensures Allocate(ps, [], draws) == ps
  {
  }

  // ----- turn order for a round -----

  /** A player with their earned spins standing in for their score. */
  function SpinsAsScore(p: Player): Player {
    p.(score := p.earned)
  }

  /** `s` lists its players in ascending (earned spins, number) order. */
  predicate AscendingBySpins(ps: seq<Player>, s: seq<nat>)
    requires InRange(ps, s)
  {
    forall k, l :: 0 <= k < l < |s| ==> Compare(SpinsAsScore(ps[s[k]]), SpinsAsScore(ps[s[l]])) <= 0
  }

  /** The round's turn order.  In round 1 scores stand in for spin counts
      while sorting and are 0 afterwards; later rounds sort by score. */
  function OrderRound(ps: seq<Player>, order: seq<nat>, round: int): (r: (seq<Player>, seq<nat>))
    requires ValidOrder(ps, order)
    ensures |r.0| == |ps| && ValidOrder(r.0, r.1) && multiset(r.1) == multiset(order)
    ensures forall i :: 0 <= i < |ps| ==> r.0[i] == ps[i].(score := r.0[i].score)
    ensures round == 1 ==>
              && (forall i :: 0 <= i < |ps| ==> r.0[i] == ps[i].(score := 0))
              && AscendingBySpins(ps, r.1)
    ensures round != 1 ==> r.0 == ps && Ascending(ps, r.1)
  {
    if round == 1 then
      var bySpins := seq(|ps|, i requires 0 <= i < |ps| => SpinsAsScore(ps[i]));
      var sorted := Sort(bySpins, order);
      PermutationDistinct(order, sorted);
      (seq(|ps|, i requires 0 <= i < |ps| => ps[i].(score := 0)), sorted)
    else
      var sorted := Sort(ps, order);
      PermutationDistinct(order, sorted);
      (ps, sorted)
  }

  /** The start of round `round`: the round's four draws allocate spins,
      then the turn order is set.  With an empty turn order the allocation
      gives nobody anything (see `Allocate`). */
  function StartRound(ps: seq<Player>, order: seq<nat>, round: int, draws: seq<AllocDraw>): (r: (seq<Player>, seq<nat>))
    requires ValidOrder(ps, order) && forall q :: 0 <= q < |draws| ==> DrawFor(order, draws[q])
    requires |draws| == AllocationDraws
    ensures |r.0| == |ps| && ValidOrder(r.0, r.1) && multiset(r.1) == multiset(order)
    ensures forall j :: 0 <= j < |ps| ==> r.0[j] == ps[j].(earned := r.0[j].earned, score := r.0[j].score)
    ensures forall j :: 0 <= j < |ps| ==>
              ps[j].earned <= r.0[j].earned <= ps[j].earned + FavouredSpins * AllocationDraws
    ensures forall m :: 0 <= m < |order| ==>
              r.0[order[m]].earned == ps[order[m]].earned + Awarded(order, draws, m)
    ensures forall j :: 0 <= j < |ps| && j !in order ==> r.0[j].earned == ps[j].earned
    ensures round != 1 ==> (forall j :: 0 <= j < |ps| ==> r.0[j].score == ps[j].score)
    ensures round == 1 ==> (forall j :: 0 <= j < |ps| ==> r.0[j].score == 0)
  {
    var withSpins := Allocate(ps, order, draws);
    var r := OrderRound(withSpins, order, round);
    ScoresOnlyChange(ps, withSpins, r.0);
    r
  }

  /** Players that differ from `ps` only in earned spins, and then only in
      score, differ from `ps` only in those two counters. */
  lemma ScoresOnlyChange(ps: seq<Player>, mid: seq<Player>, r: seq<Player>)
    requires |mid| == |ps| && |r| == |ps|
    requires forall j :: 0 <= j < |ps| ==> mid[j] == ps[j].(earned := mid[j].earned)
    requires forall j :: 0 <= j < |ps| ==> r[j] == mid[j].(score := r[j].score)
    ensures forall j :: 0 <= j < |ps| ==>
              r[j].earned == mid[j].earned && r[j] == ps[j].(earned := r[j].earned, score := r[j].score)
  {
  }

  // ----- whose turn it is -----

  /** The first position from `from` on whose player has spins. */
  function FirstWithSpins(ps: seq<Player>, order: seq<nat>, from: nat): (r: Option<nat>)
    requires InRange(ps, order) && from <= |order|
    ensures r.Some? ==> from <= r.value < |order| && HasSpins(ps[order[r.value]])
    ensures r.Some? ==> forall k :: from <= k < r.value ==> !HasSpins(ps[order[k]])
    ensures r.None? ==> forall k :: from <= k < |order| ==> !HasSpins(ps[order[k]])
    decreases |order| - from
  {
    if from == |order| then None
    else if HasSpins(ps[order[from]]) then Some(from)
    else FirstWithSpins(ps, order, from + 1)
  }

  /** Positions in the turn order of the player to play and of the one due
      next, if any. */
  datatype Turn = Turn(current: nat, next: Option<nat>)

  /** The player to play is the first in the turn order with spins, and the
      next is the first later one with spins.  None: nobody has spins and the
      round is over. */
  function SelectTurn(ps: seq<Player>, order: seq<nat>): (r: Option<Turn>)
    requires InRange(ps, order)
    ensures r.None? <==> forall k :: 0 <= k < |order| ==> !HasSpins(ps[order[k]])
    ensures r.Some? ==>
              && r.value.current < |order| && HasSpins(ps[order[r.value.current]])
              && (forall k :: 0 <= k < r.value.current ==> !HasSpins(ps[order[k]]))
    ensures r.Some? && r.value.next.Some? ==>
              && r.value.current < r.value.next.value < |order|
              && HasSpins(ps[order[r.value.next.value]])
              && (forall k :: r.value.current < k < r.value.next.value ==> !HasSpins(ps[order[k]]))
    ensures r.Some? && r.value.next.None? ==>
              forall k :: r.value.current < k < |order| ==> !HasSpins(ps[order[k]])
  {
    match FirstWithSpins(ps, order, 0)
    case None => None
    case Some(a) => Some(Turn(a, FirstWithSpins(ps, order, a + 1)))
  }

  // ----- passing -----

  /** The highest score among the players of `order` not `equals` to `me`,
      starting from -1 as the pass loop does. */
  function BestOther(ps: seq<Player>, order: seq<nat>, me: Player): (m: int)
    requires InRange(ps, order)
    ensures m >= -1
    decreases |order|
  {
    if |order| == 0 then -1
    else
      var init := order[..|order| - 1];
      var m := BestOther(ps, init, me);
      var p := ps[order[|order| - 1]];
      if !Equals(p, me) && p.score > m then p.score else m
  }

  /** The players of `order` not `equals` to `me` whose score is `s`, in
      turn order. */
  function OthersAt(ps: seq<Player>, order: seq<nat>, me: Player, s: int): (r: seq<nat>)
    requires InRange(ps, order)
    ensures |r| <= |order|
    decreases |order|
  {
    if |order| == 0 then []
    else
      var init := order[..|order| - 1];
      var p := ps[order[|order| - 1]];
      OthersAt(ps, init, me, s) + (if !Equals(p, me) && p.score == s then [order[|order| - 1]] else [])
  }

  /** The best score is at least that of every other player, and it is the
      score of one of them unless it is the starting value -1. */
  lemma {:induction false} BestOtherMeaning(ps: seq<Player>, order: seq<nat>, me: Player)
    requires InRange(ps, order)
    ensures var m := BestOther(ps, order, me);
            && (forall k :: 0 <= k < |order| && !Equals(ps[order[k]], me) ==> ps[order[k]].score <= m)
            && (m > -1 ==> exists k :: 0 <= k < |order| && !Equals(ps[order[k]], me) && ps[order[k]].score == m)
    decreases |order|
  {
    if |order| > 0 {
      var init := order[..|order| - 1];
      BestOtherMeaning(ps, init, me);
      assert forall k :: 0 <= k < |init| ==> init[k] == order[k];
    }
  }

  /** `OthersAt` holds exactly the other players of the order with score `s`. */
  lemma {:induction false} OthersAtMeaning(ps: seq<Player>, order: seq<nat>, me: Player, s: int)
    requires InRange(ps, order)
    ensures forall t :: t in OthersAt(ps, order, me, s) <==> t in order && !Equals(ps[t], me) && ps[t].score == s
    decreases |order|
  {
    if |order| > 0 {
      var init := order[..|order| - 1];
      OthersAtMeaning(ps, init, me, s);
      assert order == init + [order[|order| - 1]];
    }
  }

  /** Nobody scores above the best score. */
  lemma {:induction false} NoneAboveBest(ps: seq<Player>, order: seq<nat>, me: Player, s: int)
    requires InRange(ps, order) && s > BestOther(ps, order, me)
    ensures OthersAt(ps, order, me, s) == []
    decreases |order|
  {
    if |order| > 0 {
      NoneAboveBest(ps, order[..|order| - 1], me, s);
    }
  }

  /** Extending the scanned prefix by one entry. */
  lemma PrefixStep(ps: seq<Player>, order: seq<nat>, me: Player, i: nat, s: int)
    requires InRange(ps, order) && i < |order|
    ensures InRange(ps, order[..i]) && InRange(ps, order[..i + 1])
    ensures var p := ps[order[i]];
            var m := BestOther(ps, order[..i], me);
            BestOther(ps, order[..i + 1], me) == (if !Equals(p, me) && p.score > m then p.score else m)
    ensures var p := ps[order[i]];
            OthersAt(ps, order[..i + 1], me, s) ==
              OthersAt(ps, order[..i], me, s) + (if !Equals(p, me) && p.score == s then [order[i]] else [])
  {
    assert order[..i + 1][..i] == order[..i];
  }

  /** The pass-target loop: every other player of the turn order tied at the
      highest score among them, in turn order. */
  method PassTargets(ps: seq<Player>, order: seq<nat>, me: Player) returns (targets: seq<nat>)
    requires InRange(ps, order)
    ensures targets == OthersAt(ps, order, me, BestOther(ps, order, me))
    ensures forall t :: t in targets ==> t in order && !Equals(ps[t], me)
    ensures forall t, k :: t in targets && 0 <= k < |order| && !Equals(ps[order[k]], me) ==>
              ps[order[k]].score <= ps[t].score
    ensures forall k :: (0 <= k < |order| && !Equals(ps[order[k]], me) &&
                         ps[order[k]].score == BestOther(ps, order, me)) ==> order[k] in targets
    ensures |targets| == 0 <==>
              forall k :: 0 <= k < |order| ==> Equals(ps[order[k]], me) || ps[order[k]].score < -1
  {
    var maxScore := -1;
    targets := [];
    var i := 0;
    while i < |order|
      invariant 0 <= i <= |order|
      invariant InRange(ps, order[..i])
      invariant maxScore == BestOther(ps, order[..i], me)
      invariant targets == OthersAt(ps, order[..i], me, maxScore)
    {
      var p := ps[order[i]];
      PrefixStep(ps, order, me, i, maxScore);
      if !Equals(p, me) {
        if p.score >= maxScore {
          if p.score > maxScore {
            PrefixStep(ps, order, me, i, p.score);
            NoneAboveBest(ps, order[..i], me, p.score);
            maxScore := p.score;
            targets := [];
          }
          targets := targets + [order[i]];
        }
      }
      i := i + 1;
    }
    assert order[..i] == order;
    PassTargetsMeaning(ps, order, me, targets);
  }

  /** What the pass-target list means, once it is the players at the best
      score. */
  lemma PassTargetsMeaning(ps: seq<Player>, order: seq<nat>, me: Player, targets: seq<nat>)
    requires InRange(ps, order) && targets == OthersAt(ps, order, me, BestOther(ps, order, me))
    ensures forall t :: t in targets ==> t in order && !Equals(ps[t], me)
    ensures forall t, k :: t in targets && 0 <= k < |order| && !Equals(ps[order[k]], me) ==>
              ps[order[k]].score <= ps[t].score
    ensures forall k :: (0 <= k < |order| && !Equals(ps[order[k]], me) &&
                         ps[order[k]].score == BestOther(ps, order, me)) ==> order[k] in targets
    ensures |targets| == 0 <==>
              forall k :: 0 <= k < |order| ==> Equals(ps[order[k]], me) || ps[order[k]].score < -1
  {
    var best := BestOther(ps, order, me);
    BestOtherMeaning(ps, order, me);
    OthersAtMeaning(ps, order, me, best);
    forall k | 0 <= k < |order| && !Equals(ps[order[k]], me) && ps[order[k]].score >= -1
      ensures |targets| > 0
    {
      if best == -1 {
        assert order[k] in targets;
      } else {
        var k' :| 0 <= k' < |order| && !Equals(ps[order[k']], me) && ps[order[k']].score == best;
        assert order[k'] in targets;
      }
    }
    if |targets| > 0 {
      assert targets[0] in targets;
    }
  }

  /** Sum of earned and passed spins over all players. */
  function TotalSpins(ps: seq<Player>): int {
    if |ps| == 0 then 0 else TotalSpins(ps[..|ps| - 1]) + Spins(ps[|ps| - 1])
  }

  /** Replacing one player changes the total by the difference in their
      spins. */
  lemma {:induction false} TotalSpinsUpdate(ps: seq<Player>, i: nat, p: Player)
    requires i < |ps|
    ensures TotalSpins(ps[i := p]) == TotalSpins(ps) - Spins(ps[i]) + Spins(p)
    decreases |ps|
  {
    var n := |ps| - 1;
    assert ps[i := p][..n] == if i == n then ps[..n] else ps[..n][i := p];
    if i < n {
      TotalSpinsUpdate(ps[..n], i, p);
    }
  }

  /** The player receiving passed spins: the only target, or the one chosen
      among tied targets. */
  function Receiver(targets: seq<nat>, chosen: nat): nat
    requires |targets| > 0
  {
    if |targets| == 1 then targets[0] else chosen
  }

  /** Resolving a pass by seat `cur`: without targets the earned spins are
      dropped; otherwise the receiver gains them as passed spins. */
  function ResolvePass(ps: seq<Player>, cur: nat, targets: seq<nat>, chosen: nat): (r: seq<Player>)
    requires cur < |ps| && InRange(ps, targets) && (|targets| > 1 ==> chosen < |ps|)
    ensures |r| == |ps| && r[cur].earned == 0
    ensures forall j :: 0 <= j < |ps| ==>
              r[j].num == ps[j].num && r[j].score == ps[j].score && r[j].whammies == ps[j].whammies
    ensures |targets| == 0 ==>
              && r[cur] == ps[cur].(earned := 0)
              && (forall j :: 0 <= j < |ps| && j != cur ==> r[j] == ps[j])
              && TotalSpins(r) == TotalSpins(ps) - ps[cur].earned
    ensures |targets| > 0 ==> TotalSpins(r) == TotalSpins(ps)
    ensures |targets| > 0 && Receiver(targets, chosen) != cur ==>
              var t := Receiver(targets, chosen);
              && r[cur] == ps[cur].(earned := 0)
              && r[t] == ps[t].(passed := ps[t].passed + ps[cur].earned)
              && (forall j :: 0 <= j < |ps| && j != cur && j != t ==> r[j] == ps[j])
  {
    if |targets| == 0 then
      TotalSpinsUpdate(ps, cur, ps[cur].(earned := 0));
      ps[cur := ps[cur].(earned := 0)]
    else
      var t := Receiver(targets, chosen);
      var moved := ps[cur].earned;
      var given := ps[t := ps[t].(passed := ps[t].passed + moved)];
      TotalSpinsUpdate(ps, t, given[t]);
      TotalSpinsUpdate(given, cur, given[cur].(earned := 0));
      given[cur := given[cur].(earned := 0)]
  }

  // ----- elimination -----

  /** Whammies that put a player out of the game. */
  const WhammyLimit := 4

  /** Position of the first entry of `order` whose player `equals` `p`. */
  function IndexOf(ps: seq<Player>, order: seq<nat>, p: Player): (r: Option<nat>)
    requires InRange(ps, order)
    ensures r.Some? ==> r.value < |order| && Equals(p, ps[order[r.value]])
    ensures r.Some? ==> forall k :: 0 <= k < r.value ==> !Equals(p, ps[order[k]])
    ensures r.None? ==> forall k :: 0 <= k < |order| ==> !Equals(p, ps[order[k]])
    decreases |order|
  {
    if |order| == 0 then None
    else if Equals(p, ps[order[0]]) then Some(0)
    else
      match IndexOf(ps, order[1..], p)
      case None => None
      case Some(k) => Some(k + 1)
  }

  /** Dropping entry `k` of a valid order leaves a valid order holding every
      other entry and not that one. */
  lemma RemoveAtKeepsOthers(ps: seq<Player>, order: seq<nat>, k: nat)
    requires ValidOrder(ps, order) && k < |order|
    ensures var r := order[..k] + order[k + 1..];
            && ValidOrder(ps, r) && |r| == |order| - 1
            && order[k] !in r
            && (forall j :: j in r <==> j in order && j != order[k])
  {
    RemoveAtMembers(order, k);
    RemoveAtDistinct(order, k);
  }

  /** The entries left after dropping entry `k` of a repeat-free order. */
  lemma RemoveAtMembers(order: seq<nat>, k: nat)
    requires Distinct(order) && k < |order|
    ensures var r := order[..k] + order[k + 1..];
            && order[k] !in r
            && (forall j :: j in r <==> j in order && j != order[k])
  {
    var x := order[k];
    var r := order[..k] + order[k + 1..];
    forall m | 0 <= m < |r|
      ensures r[m] != x
    {
      if m < k {
        assert r[m] == order[m];
      } else {
        assert r[m] == order[m + 1];
      }
    }
    assert order == order[..k] + [x] + order[k + 1..];
  }

  /** Dropping an entry keeps an order free of repeats. */
  lemma RemoveAtDistinct(order: seq<nat>, k: nat)
    requires Distinct(order) && k < |order|
    ensures Distinct(order[..k] + order[k + 1..])
  {
    var r := order[..k] + order[k + 1..];
    forall a, b | 0 <= a < b < |r|
      ensures r[a] != r[b]
    {
      var a' := if a < k then a else a + 1;
      var b' := if b < k then b else b + 1;
      assert r[a] == order[a'] && r[b] == order[b'];
    }
  }

  /** The end of seat `cur`'s turn: with exactly 4 whammies they leave the
      turn order (`List.remove`, which drops the first entry `equals` to
      them); otherwise nothing changes. */
  function EndTurn(ps: seq<Player>, order: seq<nat>, cur: nat): (r: seq<nat>)
    requires Numbered(ps) && ValidOrder(ps, order) && cur < |ps|
    ensures ValidOrder(ps, r) && forall j :: j in r ==> j in order
    ensures ps[cur].whammies != WhammyLimit ==> r == order
    ensures ps[cur].whammies == WhammyLimit ==>
              && cur !in r
              && (forall j :: j in order && j != cur ==> j in r)
              && |r| == if cur in order then |order| - 1 else |order|
  {
    if ps[cur].whammies == WhammyLimit then
      match IndexOf(ps, order, ps[cur])
      case None =>
        assert forall k :: 0 <= k < |order| ==> order[k] != cur;
        order
      case Some(k) =>
        EqualsSameSeat(ps, cur, order[k]);
        RemoveAtKeepsOthers(ps, order, k);
        order[..k] + order[k + 1..]
    else order
  }

  /** A player out of the turn order stays out: the next round's start and
      the end of any turn never bring them back, and they keep their
      counters through the allocation. */
  lemma EliminatedStayOut(ps: seq<Player>, order: seq<nat>, round: int, draws: seq<AllocDraw>, j: nat)
    requires ValidOrder(ps, order) && forall q :: 0 <= q < |draws| ==> DrawFor(order, draws[q])
    requires |draws| == AllocationDraws
    requires j < |ps| && j !in order
    ensures j !in StartRound(ps, order, round, draws).1
    ensures StartRound(ps, order, round, draws).0[j].earned == ps[j].earned
  {
    var r := StartRound(ps, order, round, draws).1;
    assert j !in multiset(order);
  }

  // ----- the winners -----

  /** `s` backwards (`Collections.reverse`). */
  function Reverse(s: seq<nat>): (r: seq<nat>)
    ensures |r| == |s| && multiset(r) == multiset(s)
    ensures forall k :: 0 <= k < |s| ==> r[k] == s[|s| - 1 - k]
  {
    if |s| == 0 then []
    else
      assert s == [s[0]] + s[1..];
      Reverse(s[1..]) + [s[0]]
  }

  /** The leading entries of `s` whose score is `v`. */
  function LeadingAtScore(ps: seq<Player>, s: seq<nat>, v: int): (r: seq<nat>)
    requires InRange(ps, s)
    ensures |r| <= |s| && r == s[..|r|]
    ensures forall k :: 0 <= k < |r| ==> ps[s[k]].score == v
    ensures |r| < |s| ==> ps[s[|r|]].score != v
  {
    if |s| == 0 || ps[s[0]].score != v then []
    else [s[0]] + LeadingAtScore(ps, s[1..], v)
  }

  /** Scores along `s` never increase. */
  predicate ScoresDescend(ps: seq<Player>, s: seq<nat>)
    requires InRange(ps, s)
  {
    forall k, l :: 0 <= k < l < |s| ==> ps[s[l]].score <= ps[s[k]].score
  }

  /** Reversing an ascending order gives scores that never increase. */
  lemma ReversedScoresDescend(ps: seq<Player>, s: seq<nat>)
    requires InRange(ps, s) && Ascending(ps, s)
    ensures InRange(ps, Reverse(s)) && ScoresDescend(ps, Reverse(s))
  {
    var r := Reverse(s);
    forall k, l | 0 <= k < l < |s|
      ensures ps[r[l]].score <= ps[r[k]].score
    {
      assert Compare(ps[s[|s| - 1 - l]], ps[s[|s| - 1 - k]]) <= 0;
    }
  }

  /** Along descending scores, the leading run at the first score is exactly
      the entries with the top score. */
  lemma LeadingRunIsTop(ps: seq<Player>, s: seq<nat>)
    requires InRange(ps, s) && ScoresDescend(ps, s) && |s| > 0
    ensures var r := LeadingAtScore(ps, s, ps[s[0]].score);
            && s[0] in r
            && (forall j :: j in s ==> ps[j].score <= ps[s[0]].score)
            && (forall w :: w in r ==> w in s && ps[w].score == ps[s[0]].score)
            && (forall j :: j in s && ps[j].score == ps[s[0]].score ==> j in r)
  {
    var top := ps[s[0]].score;
    var r := LeadingAtScore(ps, s, top);
    forall j | j in s
      ensures ps[j].score <= top
    {
      var l :| 0 <= l < |s| && s[l] == j;
      if l > 0 {
        assert ps[s[l]].score <= ps[s[0]].score;
      }
    }
    forall w | w in r
      ensures w in s && ps[w].score == top
    {
      var k :| 0 <= k < |r| && r[k] == w;
      assert s[k] == w;
    }
    forall l | |r| <= l < |s|
      ensures ps[s[l]].score < top
    {
      assert ps[s[|r|]].score <= top;
      if |r| < l {
        assert ps[s[l]].score <= ps[s[|r|]].score;
      }
    }
    forall j | j in s && ps[j].score == top
      ensures j in r
    {
      var l :| 0 <= l < |s| && s[l] == j;
      assert l < |r|;
      assert r[l] == j;
    }
    assert r[0] == s[0];
  }

  /** The winners: the turn order sorted, reversed, and cut after the
      leading run at the top score. */
  function Winners(ps: seq<Player>, order: seq<nat>): (r: seq<nat>)
    requires ValidOrder(ps, order)
    ensures |r| > 0 <==> |order| > 0
    ensures forall w :: w in r ==> w in order
    ensures forall w, j :: w in r && j in order ==> ps[j].score <= ps[w].score
    ensures forall w, j :: w in r && j in order && ps[j].score == ps[w].score ==> j in r
  {
    var sorted := Sort(ps, order);
    var desc := Reverse(sorted);
    if |desc| == 0 then []
    else
      ReversedScoresDescend(ps, sorted);
      LeadingRunIsTop(ps, desc);
      SameMembers(order, desc);
      LeadingAtScore(ps, desc, ps[desc[0]].score)
  }

  /** Sequences with the same multiset have the same members. */
  lemma SameMembers(s: seq<nat>, t: seq<nat>)
    requires multiset(s) == multiset(t)
    ensures forall x :: x in s <==> x in t
  {
    forall x
      ensures x in s <==> x in t
    {
      assert x in s <==> x in multiset(s);
      assert x in t <==> x in multiset(t);
    }
  }

  /** Eliminated players never win. */
  lemma EliminatedNeverWin(ps: seq<Player>, order: seq<nat>, j: nat)
    requires ValidOrder(ps, order) && j !in order
    ensures j !in Winners(ps, order)
  {
  }

  /** Along an ascending order of distinct numbered players, reversed, the
      players tied at one score come from the highest seat down. */
  lemma TiedDescendBySeat(ps: seq<Player>, s: seq<nat>, v: int)
    requires Numbered(ps) && InRange(ps, s) && Ascending(ps, s) && Distinct(s)
    ensures var w := LeadingAtScore(ps, Reverse(s), v);
            forall a, b :: 0 <= a < b < |w| ==> w[a] > w[b]
  {
    var desc := Reverse(s);
    var w := LeadingAtScore(ps, desc, v);
    var n := |s|;
    forall a, b | 0 <= a < b < |w|
      ensures w[a] > w[b]
    {
      var i, j := n - 1 - b, n - 1 - a;
      assert w[a] == desc[a] == s[j];
      assert w[b] == desc[b] == s[i];
      assert Compare(ps[s[i]], ps[s[j]]) <= 0;
      assert ps[s[i]].score == v == ps[s[j]].score;
      assert ps[s[i]].num == s[i] + 1 && ps[s[j]].num == s[j] + 1;
      assert s[i] != s[j];
    }
  }

  /** Winners tied at the top score are listed from the highest seat down:
      the ascending sort breaks score ties by player number and the list is
      then reversed. */
  lemma WinnersDescendBySeat(ps: seq<Player>, order: seq<nat>)
    requires Numbered(ps) && ValidOrder(ps, order)
    ensures var w := Winners(ps, order);
            forall a, b :: 0 <= a < b < |w| ==> w[a] > w[b]
  {
    if |order| > 0 {
      var sorted := Sort(ps, order);
      var desc := Reverse(sorted);
      assert Distinct(sorted) by {
        PermutationDistinct(order, sorted);
      }
      TiedDescendBySeat(ps, sorted, ps[desc[0]].score);
      WinnersAreLeadingRun(ps, order);
    }
  }

  /** With somebody left in play, the winners are the leading run of the
      reversed sort at its first player's score. */
  lemma WinnersAreLeadingRun(ps: seq<Player>, order: seq<nat>)
    requires ValidOrder(ps, order) && |order| > 0
    ensures var desc := Reverse(Sort(ps, order));
            Winners(ps, order) == LeadingAtScore(ps, desc, ps[desc[0]].score)
  {
  }

  /** The players of `JointWinnersExample`: scores 500, 500 and 300. */
  predicate JointWinnersScores(ps: seq<Player>) {
    ps == [Player(1, 500, 0, 0, 0), Player(2, 500, 0, 0, 0), Player(3, 300, 0, 0, 0)]
  }

  lemma JointWinnersSort(ps: seq<Player>, order: seq<nat>, t: seq<nat>)
    requires Numbered(ps) && |ps| == 3 && ps[0].score == ps[1].score > ps[2].score
    requires InRange(ps, order) && multiset(order) == multiset{0, 1, 2}
    requires t == [2, 0, 1]
    ensures Sort(ps, order) == t
  {
    assert InRange(ps, t) && Ascending(ps, t);
    assert multiset(t) == multiset(order);
    AscendingUnique(ps, Sort(ps, order), t);
  }

  lemma JointWinnersRun(ps: seq<Player>, desc: seq<nat>)
    requires JointWinnersScores(ps) && desc == [1, 0, 2]
    ensures InRange(ps, desc) && LeadingAtScore(ps, desc, 500) == [1, 0]
  {
    assert LeadingAtScore(ps, desc[2..], 500) == [];
    assert desc[1..][1..] == desc[2..];
    assert LeadingAtScore(ps, desc[1..], 500) == [0] + LeadingAtScore(ps, desc[2..], 500);
    assert LeadingAtScore(ps, desc, 500) == [1] + LeadingAtScore(ps, desc[1..], 500);
  }

  /** Three players with scores 500, 500 and 300 and nobody eliminated:
      players 1 and 2 win jointly, listed as player 2 before player 1. */
  lemma JointWinnersExample(ps: seq<Player>, order: seq<nat>)
    requires JointWinnersScores(ps) && order == [0, 1, 2]
    ensures ValidOrder(ps, order) && Winners(ps, order) == [1, 0]
  {
    assert ValidOrder(ps, order);
    var t := Sort(ps, order);
    JointWinnersSort(ps, order, [2, 0, 1]);
    ReverseThree(t);
    var desc := Reverse(t);
    JointWinnersRun(ps, desc);
    assert ps[desc[0]].score == 500;
  }

  lemma ReverseThree(s: seq<nat>)
    requires |s| == 3
    ensures Reverse(s) == [s[2], s[1], s[0]]
  {
    var r := Reverse(s);
    assert r[0] == s[2] && r[1] == s[1] && r[2] == s[0];
  }

  /** The players of `RoundOneOrderExample`: earned spins 2, 0 and 1. */
  predicate RoundOneSpins(ps: seq<Player>) {
    ps == [Player(1, 0, 2, 0, 0), Player(2, 0, 0, 0, 0), Player(3, 0, 1, 0, 0)]
  }

  lemma RoundOneSort(bySpins: seq<Player>, order: seq<nat>, t: seq<nat>)
    requires Numbered(bySpins) && |bySpins| == 3
    requires bySpins[1].score < bySpins[2].score < bySpins[0].score
    requires InRange(bySpins, order) && multiset(order) == multiset{0, 1, 2}
    requires t == [1, 2, 0]
    ensures Sort(bySpins, order) == t
  {
    assert InRange(bySpins, t) && Ascending(bySpins, t);
    assert multiset(t) == multiset(order);
    AscendingUnique(bySpins, Sort(bySpins, order), t);
  }

  /** Earned spins 2, 0 and 1 for players 1, 2 and 3: round 1 plays player 2,
      then player 3, then player 1. */
  lemma RoundOneOrderExample(ps: seq<Player>, order: seq<nat>)
    requires RoundOneSpins(ps) && order == [0, 1, 2]
    ensures ValidOrder(ps, order) && OrderRound(ps, order, 1).1 == [1, 2, 0]
  {
    assert ValidOrder(ps, order);
    var bySpins := seq(|ps|, i requires 0 <= i < |ps| => SpinsAsScore(ps[i]));
    assert bySpins == [Player(1, 2, 2, 0, 0), Player(2, 0, 0, 0, 0), Player(3, 1, 1, 0, 0)];
    RoundOneSort(bySpins, order, [1, 2, 0]);
  }

  // ----- the final round and spin -----

  /** The round in play uses the last board. */
  predicate IsFinalRound(round: int, boardCount: int) {
    round == boardCount
  }

  /** The final round, with one spin left among all players. */
  predicate IsFinalSpin(ps: seq<Player>, round: int, boardCount: int) {
    IsFinalRound(round, boardCount) && TotalSpins(ps) == 1
  }

  /** Every player's spin counters are non-negative. */
  predicate CountersNonNegative(ps: seq<Player>) {
    forall i :: 0 <= i < |ps| ==> ps[i].earned >= 0 && ps[i].passed >= 0
  }

  /** Seat `i` holds the only spin in the game. */
  predicate OnlySpinner(ps: seq<Player>, i: nat)
    requires i < |ps|
  {
    Spins(ps[i]) == 1 && forall j :: 0 <= j < |ps| && j != i ==> Spins(ps[j]) == 0
  }

  /** With non-negative counters the total is non-negative, and 0 exactly
      when nobody has a spin. */
  lemma {:induction false} TotalSpinsNonNegative(ps: seq<Player>)
    requires CountersNonNegative(ps)
    ensures TotalSpins(ps) >= 0
    ensures TotalSpins(ps) == 0 <==> forall j :: 0 <= j < |ps| ==> Spins(ps[j]) == 0
    decreases |ps|
  {
    if |ps| > 0 {
      TotalSpinsNonNegative(ps[..|ps| - 1]);
      assert forall j :: 0 <= j < |ps| - 1 ==> ps[..|ps| - 1][j] == ps[j];
    }
  }

  /** One spin in total among players with non-negative counters means
      exactly one player holds exactly one spin. */
  lemma {:induction false} OneSpinLeft(ps: seq<Player>)
    requires CountersNonNegative(ps)
    ensures TotalSpins(ps) == 1 <==> exists i :: 0 <= i < |ps| && OnlySpinner(ps, i)
    decreases |ps|
  {
    if |ps| > 0 {
      var n := |ps| - 1;
      var init := ps[..n];
      assert forall j :: 0 <= j < n ==> init[j] == ps[j];
      OneSpinLeft(init);
      TotalSpinsNonNegative(init);
      if TotalSpins(ps) == 1 {
        if Spins(ps[n]) == 1 {
          assert OnlySpinner(ps, n);
        } else {
          assert Spins(ps[n]) == 0;
          var i :| 0 <= i < n && OnlySpinner(init, i);
          assert OnlySpinner(ps, i);
        }
      }
      if exists i :: 0 <= i < |ps| && OnlySpinner(ps, i) {
        var i :| 0 <= i < |ps| && OnlySpinner(ps, i);
        if i == n {
          assert TotalSpins(init) == 0;
        } else {
          assert OnlySpinner(init, i);
        }
      }
    }
  }

  /** The final spin: in the final round, exactly one player holds exactly
      one spin. */
  lemma FinalSpinOneSpinner(ps: seq<Player>, round: int, boardCount: int)
    requires CountersNonNegative(ps)
    ensures IsFinalSpin(ps, round, boardCount) <==>
              IsFinalRound(round, boardCount) && exists i :: 0 <= i < |ps| && OnlySpinner(ps, i)
  {
    OneSpinLeft(ps);
  }
}
