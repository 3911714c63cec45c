/** The heuristic player's strategy: where to move, money or a whammy, whom
    to pass to, and the integer rules that decide whether to press. */
module Heuristic {
  import opened JavaLang
  import opened Spaces
  import opened Players
  import opened Games

  // ----- choosing a move target -----

  /** The value the strategy puts on a code: its cash when positive, the
      average prize for exactly "P", and -1 otherwise.  None: the code's
      cash amount cannot be read and `getCashAmount` throws. */
  function Amount(code: string, averagePrize: int): (r: Option<int>)
    ensures r.Some? <==> CashAmount(code).Some?
    ensures r.Some? && CashAmount(code).value > 0 ==> r.value == CashAmount(code).value
    ensures r.Some? ==> r.value >= -1 || code == "P"
    ensures r.Some? && CashAmount(code).value <= 0 ==> r.value == (if code == "P" then averagePrize else -1)
  {
    match CashAmount(code)
    case None => None
    case Some(a) => Some(if a > 0 then a else if code == "P" then averagePrize else -1)
  }

  /** Every code can be valued. */
  predicate Readable(codes: seq<string>, averagePrize: int) {
    forall j :: 0 <= j < |codes| ==> Amount(codes[j], averagePrize).Some?
  }

  /** Which codes can be valued, in order. */
  function ReadableFlags(codes: seq<string>, averagePrize: int): (f: seq<bool>)
    ensures |f| == |codes| && forall j :: 0 <= j < |codes| ==> f[j] == Amount(codes[j], averagePrize).Some?
  {
    seq(|codes|, j requires 0 <= j < |codes| => Amount(codes[j], averagePrize).Some?)
  }

  /** The value of a readable code, -1 for one that is not. */
  function Value(code: string, averagePrize: int): int {
    if Amount(code, averagePrize).Some? then Amount(code, averagePrize).value else -1
  }

  /** The code ends in 'S': it carries a spin. */
  predicate HasSpin(code: string) {
    |code| > 0 && code[|code| - 1] == 'S'
  }

  /** The codes' values, in order. */
  function Values(codes: seq<string>, averagePrize: int): (v: seq<int>)
    ensures |v| == |codes| && forall j :: 0 <= j < |codes| ==> v[j] == Value(codes[j], averagePrize)
  {
    seq(|codes|, j requires 0 <= j < |codes| => Value(codes[j], averagePrize))
  }

  /** Which codes carry a spin, in order. */
  function SpinFlags(codes: seq<string>): (f: seq<bool>)
    ensures |f| == |codes| && forall j :: 0 <= j < |codes| ==> f[j] == HasSpin(codes[j])
  {
    seq(|codes|, j requires 0 <= j < |codes| => HasSpin(codes[j]))
  }

  /** The first candidate before `n` of the spin or non-spin category with
      the highest value above -1, in the order the loop finds it. */
  function BestOf(values: seq<int>, spins: seq<bool>, spin: bool, n: nat): (r: Option<nat>)
    requires |values| == |spins| && n <= |values|
    ensures r.Some? ==> r.value < n
    decreases n
  {
    if n == 0 then None
    else
      var b := BestOf(values, spins, spin, n - 1);
      var best := if b.None? then -1 else values[b.value];
      if spins[n - 1] == spin && values[n - 1] > best then Some(n - 1) else b
  }

  /** `BestOf` finds the first candidate of the category with the highest
      value, provided that value is above -1, and nothing exactly when no
      candidate of the category is worth more than -1. */
  lemma {:induction false} BestOfMeaning(values: seq<int>, spins: seq<bool>, spin: bool, n: nat)
    requires |values| == |spins| && n <= |values|
    ensures var r := BestOf(values, spins, spin, n);
            && (r.Some? ==> spins[r.value] == spin && values[r.value] > -1)
            && (r.Some? ==> forall j :: 0 <= j < n && spins[j] == spin ==> values[j] <= values[r.value])
            && (r.Some? ==> forall j :: 0 <= j < r.value && spins[j] == spin ==> values[j] < values[r.value])
            && (r.None? <==> forall j :: 0 <= j < n && spins[j] == spin ==> values[j] <= -1)
    decreases n
  {
    if n > 0 {
      BestOfMeaning(values, spins, spin, n - 1);
    }
  }

  /** What `chooseMoveTarget` returns: it throws, returns null, or returns the
      target at `index`. */
  datatype Choice = Throws | NoTarget | Target(index: nat)

  /** The final decision between the best non-spin and the best spin
      candidate. */
  function Decide(best: Option<nat>, bestSpin: Option<nat>, finalSpin: bool): Choice {
    if best.None? then (if bestSpin.None? then NoTarget else Target(bestSpin.value))
    else if bestSpin.None? || finalSpin then Target(best.value)
    else Target(bestSpin.value)
  }

  /** The loop of `chooseMoveTarget` over the candidates' values and spin
      flags: the best candidate of each category, then the decision. */
  method SelectTarget(values: seq<int>, spins: seq<bool>, finalSpin: bool) returns (c: Choice)
    requires |values| == |spins|
    ensures c == Decide(BestOf(values, spins, false, |values|), BestOf(values, spins, true, |values|), finalSpin)
    ensures c.Target? ==> c.index < |values| && values[c.index] > -1
    ensures c == NoTarget <==> forall j :: 0 <= j < |values| ==> values[j] <= -1
    ensures c != Throws
  {
    var maxValue := -1;
    var maxSpace: Option<nat> := None;
    var maxSpinValue := -1;
    var maxSpinSpace: Option<nat> := None;
    var i := 0;
    while i < |values|
      invariant 0 <= i <= |values|
      invariant maxSpace == BestOf(values, spins, false, i)
      invariant maxSpinSpace == BestOf(values, spins, true, i)
      invariant maxValue == if maxSpace.None? then -1 else values[maxSpace.value]
      invariant maxSpinValue == if maxSpinSpace.None? then -1 else values[maxSpinSpace.value]
    {
      if spins[i] {
        if values[i] > maxSpinValue {
          maxSpinValue := values[i];
          maxSpinSpace := Some(i);
        }
      } else {
        if values[i] > maxValue {
          maxValue := values[i];
          maxSpace := Some(i);
        }
      }
      i := i + 1;
    }
    c := Decide(maxSpace, maxSpinSpace, finalSpin);
    DecideMeaning(values, spins, finalSpin);
  }

  /** `chooseMoveTarget` over the targets' shown codes: it throws if a code's
      amount cannot be read; otherwise it picks a spin space if there is one
      of value above -1 and it is not the final spin, and else the best space
      without a spin. */
  method ChooseMoveTarget(codes: seq<string>, averagePrize: int, finalSpin: bool) returns (c: Choice)
    ensures c == Throws <==> !Readable(codes, averagePrize)
    ensures c != Throws ==>
              var values := Values(codes, averagePrize);
              var spins := SpinFlags(codes);
              c == Decide(BestOf(values, spins, false, |codes|), BestOf(values, spins, true, |codes|), finalSpin)
    ensures c.Target? ==> c.index < |codes| && Value(codes[c.index], averagePrize) > -1
    ensures c == NoTarget <==>
              Readable(codes, averagePrize) && forall j :: 0 <= j < |codes| ==> Value(codes[j], averagePrize) <= -1
  {
    var readable := ReadableFlags(codes, averagePrize);
    if false in readable {
      return Throws;
    }
    var values := Values(codes, averagePrize);
    c := SelectTarget(values, SpinFlags(codes), finalSpin);
  }

  /** The decision names a candidate of value above -1, and there is none
      exactly when every value is at most -1. */
  lemma DecideMeaning(values: seq<int>, spins: seq<bool>, finalSpin: bool)
    requires |values| == |spins|
    ensures var c := Decide(BestOf(values, spins, false, |values|), BestOf(values, spins, true, |values|), finalSpin);
            && (c.Target? ==> c.index < |values| && values[c.index] > -1)
            && (c == NoTarget <==> forall j :: 0 <= j < |values| ==> values[j] <= -1)
            && c != Throws
  {
    var n := |values|;
    BestOfMeaning(values, spins, false, n);
    BestOfMeaning(values, spins, true, n);
    if BestOf(values, spins, false, n).None? && BestOf(values, spins, true, n).None? {
      forall j | 0 <= j < n
        ensures values[j] <= -1
      {
        if spins[j] {
        }
      }
    }
  }

  /** With candidates of both kinds above -1, the heuristic takes the spin
      unless it is the final spin. */
  lemma SpinPreferred(codes: seq<string>, averagePrize: int, finalSpin: bool, k: nat, s: nat)
    requires k < |codes| && s < |codes|
    requires !HasSpin(codes[k]) && Value(codes[k], averagePrize) > -1
    requires HasSpin(codes[s]) && Value(codes[s], averagePrize) > -1
    ensures var values := Values(codes, averagePrize);
            var spins := SpinFlags(codes);
            var c := Decide(BestOf(values, spins, false, |codes|), BestOf(values, spins, true, |codes|), finalSpin);
            c.Target? && HasSpin(codes[c.index]) == !finalSpin
  {
    var values := Values(codes, averagePrize);
    var spins := SpinFlags(codes);
    BestOfMeaning(values, spins, false, |codes|);
    BestOfMeaning(values, spins, true, |codes|);
    assert spins[k] == false && spins[s] == true;
  }

  // ----- money or a whammy -----

  /** `moneyOrLoseWhammy`: true takes the money, false gives up a whammy. */
  function MoneyOrLoseWhammy(p: Player, amount: int): (takeMoney: bool)
    ensures takeMoney <==> p.whammies >= 2
  {
    p.whammies >= 2
  }

  // ----- choosing a pass target -----

  /** Whammy counts of the targets, in order. */
  function WhammiesOf(ps: seq<Player>, targets: seq<nat>): (w: seq<int>)
    requires forall k :: 0 <= k < |targets| ==> targets[k] < |ps|
    ensures |w| == |targets| && forall k :: 0 <= k < |targets| ==> w[k] == ps[targets[k]].whammies
  {
    seq(|targets|, k requires 0 <= k < |targets| => ps[targets[k]].whammies)
  }

  /** `choosePassTarget`: the first target with the most whammies; None
      (null) only for an empty list. */
  function ChoosePassTarget(ps: seq<Player>, targets: seq<nat>): (r: Option<nat>)
    requires forall k :: 0 <= k < |targets| ==> targets[k] < |ps|
    ensures r.None? <==> |targets| == 0
    ensures r.Some? ==> r.value in targets
    ensures r.Some? ==> forall k :: 0 <= k < |targets| ==> ps[targets[k]].whammies <= ps[r.value].whammies
    ensures r.Some? ==> exists i :: 0 <= i < |targets| && targets[i] == r.value &&
                          forall k :: 0 <= k < i ==> ps[targets[k]].whammies < ps[r.value].whammies
  {
    if |targets| == 0 then None
    else
      var i := FirstArgMax(WhammiesOf(ps, targets));
      Some(targets[i])
  }

  // ----- press or pass -----

  /** The seats before `n` whose score is at least `v`. */
  ghost function SeatsAtLeast(ps: seq<Player>, v: int, n: nat): set<nat>
    requires n <= |ps|
  {
    set j: nat | j < n && ps[j].score >= v
  }

  /** Players before seat `n` whose score is at least `v`. */
  function CountAtLeast(ps: seq<Player>, v: int, n: nat): (c: nat)
    requires n <= |ps|
    ensures c == |SeatsAtLeast(ps, v, n)|
    ensures c <= n
    ensures (exists j :: 0 <= j < n && ps[j].score >= v) ==> c >= 1
  {
    if n == 0 then
      assert SeatsAtLeast(ps, v, n) == {};
      0
    else
      var c := CountAtLeast(ps, v, n - 1);
      var before := SeatsAtLeast(ps, v, n - 1);
      assert n - 1 !in before;
      if ps[n - 1].score >= v then
        assert SeatsAtLeast(ps, v, n) == before + {n - 1};
        c + 1
      else
        assert SeatsAtLeast(ps, v, n) == before;
        c
  }

  /** The player's place: how many players (themselves included) score at
      least as much. */
  function Position(ps: seq<Player>, me: nat): (pos: nat)
    requires me < |ps|
    ensures pos == |set j: nat | j < |ps| && ps[j].score >= ps[me].score|
    ensures 1 <= pos <= |ps|
  {
    CountAtLeast(ps, ps[me].score, |ps|)
  }

  /** The first of the players not `equals` to `me` with the highest score,
      among seats before `n`. */
  function BestOpponent(ps: seq<Player>, me: Player, n: nat): (r: Option<nat>)
    requires n <= |ps|
    ensures r.Some? ==> r.value < n && !Equals(me, ps[r.value])
    ensures r.Some? ==> forall j :: 0 <= j < n && !Equals(me, ps[j]) ==> ps[j].score <= ps[r.value].score
    ensures r.Some? ==> forall j :: 0 <= j < r.value && !Equals(me, ps[j]) ==> ps[j].score < ps[r.value].score
    ensures r.None? <==> forall j :: 0 <= j < n ==> Equals(me, ps[j])
  {
    if n == 0 then None
    else
      var b := BestOpponent(ps, me, n - 1);
      if !Equals(me, ps[n - 1]) && (b.None? || ps[n - 1].score > ps[b.value].score) then Some(n - 1) else b
  }

  /** `pressOrPass` for seat `me`: Some(true) presses, Some(false) passes,
      None is the null dereference when no other player exists.  The board's
      expected-cash estimate `expCash` and the final expected-value
      comparison `evPress` come from board statistics outside this model.
      The rules apply in order: the final spin by place, third place in the
      final round, one earned spin left in the final round, two whammies,
      an opponent with three whammies, and then the expected value. */
  function PressOrPass(ps: seq<Player>, me: nat, round: int, boardCount: int,
                       expCash: int -> real, evPress: bool): (r: Option<bool>)
    requires me < |ps|
    ensures var target := BestOpponent(ps, ps[me], |ps|);
            var pos := Position(ps, me);
            IsFinalSpin(ps, round, boardCount) ==>
              && (r.None? <==> target.None?)
              && (target.Some? && pos == 1 ==>
                    var gap := Abs(ps[me].score - ps[target.value].score) as real;
                    r == Some(gap < expCash(ps[target.value].score)))
              && (target.Some? && pos == 2 ==>
                    var gap := Abs(ps[me].score - ps[target.value].score) as real;
                    r == Some(gap < expCash(ps[me].score)))
              && (target.Some? && pos >= 3 ==> r == Some(true))
    ensures var target := BestOpponent(ps, ps[me], |ps|);
            var pos := Position(ps, me);
            var finalRound := IsFinalRound(round, boardCount);
            !IsFinalSpin(ps, round, boardCount) ==>
              && (finalRound && pos == 3 ==> r == Some(true))
              && (finalRound && pos != 3 && ps[me].earned == 1 ==> r == Some(false))
              && (!(finalRound && (pos == 3 || ps[me].earned == 1)) ==>
                    && (ps[me].whammies >= 2 ==> r == Some(false))
                    && (ps[me].whammies < 2 && target.None? ==> r.None?)
                    && (ps[me].whammies < 2 && target.Some? && ps[target.value].whammies == 3 ==> r == Some(false))
                    && (ps[me].whammies < 2 && target.Some? && ps[target.value].whammies != 3 ==> r == Some(evPress)))
    ensures r == Some(true) ==>
              IsFinalSpin(ps, round, boardCount) || (IsFinalRound(round, boardCount) && Position(ps, me) == 3) || evPress
  {
    var self := ps[me];
    var pos := Position(ps, me);
    var target := BestOpponent(ps, self, |ps|);
    if IsFinalSpin(ps, round, boardCount) then
      if target.None? then None
      else
        var opponent := ps[target.value];
        var scoreDiff := Abs(self.score - opponent.score);
        if pos == 1 then Some((scoreDiff as real) < expCash(opponent.score))
        else if pos == 2 then Some((scoreDiff as real) < expCash(self.score))
        else Some(true)
    else if IsFinalRound(round, boardCount) && pos == 3 then Some(true)
    else if IsFinalRound(round, boardCount) && self.earned == 1 then Some(false)
    else if self.whammies >= 2 then Some(false)
    else if target.None? then None
    else if ps[target.value].whammies == 3 then Some(false)
    else Some(evPress)
  }

  /** Outside the final round a player who would take the money on "Money
      or Lose-1-Whammy" (two or more whammies) never presses. */
  lemma PassesWithTwoWhammies(ps: seq<Player>, me: nat, round: int, boardCount: int,
                              expCash: int -> real, evPress: bool, amount: int)
    requires me < |ps| && !IsFinalRound(round, boardCount)
    ensures MoneyOrLoseWhammy(ps[me], amount) ==>
              PressOrPass(ps, me, round, boardCount, expCash, evPress) == Some(false)
  {
  }

  /** In third place in the final round the heuristic always presses, on the
      final spin as well, provided it has an opponent. */
  lemma PressesInThirdPlace(ps: seq<Player>, me: nat, round: int, boardCount: int, expCash: int -> real, evPress: bool)
    requires me < |ps| && IsFinalRound(round, boardCount) && Position(ps, me) == 3
    requires exists j :: 0 <= j < |ps| && !Equals(ps[me], ps[j])
    ensures PressOrPass(ps, me, round, boardCount, expCash, evPress) == Some(true)
  {
  }
}
