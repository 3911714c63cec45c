/** `getNeuralNetInput`: the 33-slot game-state vector a player hands to its
    network, built as the sequence of array stores the method performs. */
module NetInput {
  import opened JavaLang
  import opened Players
  import opened Orders

  /** Length of the state vector. */
  const VectorSize := 33
  /** First slot of the requesting player's block. */
  const OwnOffset := 4
  /** Slot of the "current player has passed spins" flag. */
  const PassedFlagSlot := 3

  /** One array store `ret[slot] = value`. */
  datatype Write = Write(slot: int, value: int)

  /** Every store of `ws` lands inside an array of length `size`. */
  predicate InBounds(ws: seq<Write>, size: int) {
    forall k :: 0 <= k < |ws| ==> 0 <= ws[k].slot < size
  }

  /** No store of `ws` goes to slot `x`. */
  predicate Untouched(ws: seq<Write>, x: int) {
    forall k :: 0 <= k < |ws| ==> ws[k].slot != x
  }

  /** The value slot `x` holds after the stores `ws`, starting from `d`: the
      value of the last store to `x`, or `d` when there is none. */
  function LastValue(ws: seq<Write>, x: int, d: int): int
    decreases |ws|
  {
    if |ws| == 0 then d
    else LastValue(ws[1..], x, if ws[0].slot == x then ws[0].value else d)
  }

  lemma {:induction false} LastValueAppend(a: seq<Write>, b: seq<Write>, x: int, d: int)
    ensures LastValue(a + b, x, d) == LastValue(b, x, LastValue(a, x, d))
    decreases |a|
  {
    if |a| > 0 {
      assert (a + b)[1..] == a[1..] + b;
      LastValueAppend(a[1..], b, x, if a[0].slot == x then a[0].value else d);
    } else {
      assert a + b == b;
    }
  }

  lemma LastValueCons(w: Write, ws: seq<Write>, x: int, d: int)
    ensures LastValue([w] + ws, x, d) == LastValue(ws, x, if w.slot == x then w.value else d)
  {
    assert ([w] + ws)[1..] == ws;
  }

  lemma {:induction false} LastValueUntouched(ws: seq<Write>, x: int, d: int)
    requires Untouched(ws, x)
    ensures LastValue(ws, x, d) == d
    decreases |ws|
  {
    if |ws| > 0 {
      LastValueUntouched(ws[1..], x, d);
    }
  }

  /** The stores performed in order on `v`; a store outside the array throws
      `ArrayIndexOutOfBoundsException`, here None. */
  function ApplyWrites(v: seq<int>, ws: seq<Write>): (r: Option<seq<int>>)
    ensures r.Some? <==> InBounds(ws, |v|)
    ensures r.Some? ==> |r.value| == |v| && forall x :: 0 <= x < |v| ==> r.value[x] == LastValue(ws, x, v[x])
    decreases |ws|
  {
    if |ws| == 0 then Some(v)
    else if 0 <= ws[0].slot < |v| then
      var r := ApplyWrites(v[ws[0].slot := ws[0].value], ws[1..]);
      assert ws == [ws[0]] + ws[1..];
      r
    else None
  }

  // ----- the stores of getNeuralNetInput -----

  /** Constant, round number from 0, and whether Double is still in play. */
  function HeaderWrites(round: int, doubleInPlay: bool): seq<Write> {
    [Write(0, 1), Write(1, round - 1), Write(2, if doubleInPlay then 1 else 0)]
  }

  /** Players before seat `k` whose number differs from the requester's. */
  function Opponents(ps: seq<Player>, playerNum: int, k: nat): (c: nat)
    requires k <= |ps|
    ensures c <= k
  {
    if k == 0 then 0
    else Opponents(ps, playerNum, k - 1) + (if ps[k - 1].num != playerNum then 1 else 0)
  }

  /** First slot of seat `k`'s block: 4 for the requester, and 3 + 10 * n
      for the n-th opponent. */
  function Offset(ps: seq<Player>, playerNum: int, k: nat): int
    requires k < |ps|
  {
    if ps[k].num == playerNum then OwnOffset else 3 + 10 * (Opponents(ps, playerNum, k) + 1)
  }

  /** The current player's block marks slot 0 of the block (and the passed
      flag when they have passed spins); otherwise the next player's block
      marks slot 1. */
  function TurnWrites(p: Player, offset: int, current: Option<Player>, next: Option<Player>): seq<Write> {
    if current.Some? && Equals(p, current.value) then
      [Write(offset, 1)] + (if p.passed > 0 then [Write(PassedFlagSlot, 1)] else [])
    else if next.Some? && Equals(p, next.value) then [Write(offset + 1, 1)]
    else []
  }

  /** One store per whammy, from slot 2 of the block on. */
  function WhammyWrites(offset: int, count: int): (r: seq<Write>)
    ensures |r| == if count <= 0 then 0 else count
    ensures forall k :: 0 <= k < |r| ==> r[k] == Write(offset + 2 + k, 1)
    decreases count
  {
    if count <= 0 then [] else WhammyWrites(offset, count - 1) + [Write(offset + 1 + count, 1)]
  }

  /** Everything the first loop stores for one player. */
  function PlayerWrites(p: Player, offset: int, current: Option<Player>, next: Option<Player>): (r: seq<Write>)
    ensures |r| >= 3 && r[|r| - 1] == Write(offset + 8, p.passed)
  {
    TurnWrites(p, offset, current, next) + WhammyWrites(offset, p.whammies)
    + [Write(offset + 6, p.score), Write(offset + 7, p.earned), Write(offset + 8, p.passed)]
  }

  /** The stores of blocks `from` on, one block after the other. */
  function Joined(bs: seq<seq<Write>>, from: nat): seq<Write>
    decreases |bs| - from
  {
    if from >= |bs| then [] else bs[from] + Joined(bs, from + 1)
  }

  /** The stores of each seat from `from` on, one block per seat. */
  function SeatBlocks(ps: seq<Player>, playerNum: int, current: Option<Player>, next: Option<Player>, from: nat): (bs: seq<seq<Write>>)
    requires from <= |ps|
    ensures |bs| == |ps| - from
    ensures forall j :: 0 <= j < |bs| ==> bs[j] == PlayerWrites(ps[from + j], Offset(ps, playerNum, from + j), current, next)
    decreases |ps| - from
  {
    if from == |ps| then []
    else
      var rest := SeatBlocks(ps, playerNum, current, next, from + 1);
      var bs := [PlayerWrites(ps[from], Offset(ps, playerNum, from), current, next)] + rest;
      assert forall j :: 1 <= j < |bs| ==> bs[j] == rest[j - 1];
      bs
  }

  /** The first loop: every seat's stores, in seat order. */
  function PlayersWrites(ps: seq<Player>, playerNum: int, current: Option<Player>, next: Option<Player>): seq<Write> {
    Joined(SeatBlocks(ps, playerNum, current, next, 0), 0)
  }

  /** The highest opponent score among seats before `n`, starting from 0. */
  function MaxOpponentScore(ps: seq<Player>, playerNum: int, n: nat): (m: int)
    requires n <= |ps|
    ensures m >= 0
    ensures forall j :: 0 <= j < n && ps[j].num != playerNum ==> ps[j].score <= m
    ensures m > 0 ==> exists j :: 0 <= j < n && ps[j].num != playerNum && ps[j].score == m
  {
    if n == 0 then 0
    else
      var m := MaxOpponentScore(ps, playerNum, n - 1);
      if ps[n - 1].num != playerNum && ps[n - 1].score > m then ps[n - 1].score else m
  }

  /** Pass-target flag slot of the n-th opponent. */
  function PassFlagSlot(n: int): int {
    12 + 10 * n
  }

  /** The second loop, from seat `k` on: each opponent at the top opponent
      score gets its pass-target flag. */
  function PassFlagWrites(ps: seq<Player>, playerNum: int, top: int, k: nat): seq<Write>
    requires k <= |ps|
    decreases |ps| - k
  {
    if k == |ps| then []
    else
      (if ps[k].num != playerNum && ps[k].score == top
       then [Write(PassFlagSlot(Opponents(ps, playerNum, k) + 1), 1)] else [])
      + PassFlagWrites(ps, playerNum, top, k + 1)
  }

  /** All stores of `getNeuralNetInput`, in order. */
  function AllWrites(ps: seq<Player>, playerNum: int, round: int, doubleInPlay: bool,
                     current: Option<Player>, next: Option<Player>): seq<Write>
  {
    HeaderWrites(round, doubleInPlay)
    + PlayersWrites(ps, playerNum, current, next)
    + PassFlagWrites(ps, playerNum, MaxOpponentScore(ps, playerNum, |ps|), 0)
  }

  /** The state vector for player `playerNum`.  `doubleInPlay` is the current
      board's flag; `current` and `next` are the players whose turn it is
      and who is next (null before the first turn or at the end of the
      order).  None: a store fell outside the array. */
  function StateVector(ps: seq<Player>, playerNum: int, round: int, doubleInPlay: bool,
                       current: Option<Player>, next: Option<Player>): (r: Option<seq<int>>)
    ensures r.Some? ==> |r.value| == VectorSize
  {
    ApplyWrites(seq(VectorSize, _ => 0), AllWrites(ps, playerNum, round, doubleInPlay, current, next))
  }

  // ----- where the stores go -----

  /** Every store of `ws` goes to slot `lo` or above. */
  predicate SlotsFrom(ws: seq<Write>, lo: int) {
    forall k :: 0 <= k < |ws| ==> lo <= ws[k].slot
  }

  /** Every store of `ws` goes to the passed flag or to the nine slots of the
      block at `offset`. */
  predicate InBlock(ws: seq<Write>, offset: int) {
    forall k :: 0 <= k < |ws| ==> ws[k].slot == PassedFlagSlot || offset <= ws[k].slot < offset + 9
  }

  /** A pass-target flag slot: 22, 32, 42, ... */
  predicate IsPassFlagSlot(x: int) {
    x >= PassFlagSlot(1) && (x - PassFlagSlot(1)) % 10 == 0
  }

  lemma PlayerWritesSlots(p: Player, offset: int, current: Option<Player>, next: Option<Player>)
    requires offset >= OwnOffset
    ensures SlotsFrom(PlayerWrites(p, offset, current, next), PassedFlagSlot)
    ensures p.whammies <= 4 ==> InBlock(PlayerWrites(p, offset, current, next), offset)
  {
  }

  lemma {:induction false} OpponentsMonotone(ps: seq<Player>, playerNum: int, j: nat, k: nat)
    requires j <= k <= |ps|
    ensures Opponents(ps, playerNum, j) <= Opponents(ps, playerNum, k)
    ensures j < k && ps[j].num != playerNum ==> Opponents(ps, playerNum, j) < Opponents(ps, playerNum, k)
    decreases k - j
  {
    if j < k {
      OpponentsMonotone(ps, playerNum, j + 1, k);
    }
  }

  /** Every offset is at least 4, and opponents' offsets are 13, 23, ... */
  lemma OffsetRange(ps: seq<Player>, playerNum: int, k: nat)
    requires k < |ps|
    ensures Offset(ps, playerNum, k) >= OwnOffset
    ensures ps[k].num != playerNum ==> Offset(ps, playerNum, k) == 13 + 10 * Opponents(ps, playerNum, k)
  {
  }

  /** Blocks of different seats do not overlap, once players are numbered. */
  lemma OffsetsApart(ps: seq<Player>, playerNum: int, j: nat, k: nat)
    requires Numbered(ps) && j < |ps| && k < |ps| && j != k
    ensures Offset(ps, playerNum, j) + 9 <= Offset(ps, playerNum, k) ||
            Offset(ps, playerNum, k) + 9 <= Offset(ps, playerNum, j)
  {
    if j < k {
      OpponentsMonotone(ps, playerNum, j, k);
    } else {
      OpponentsMonotone(ps, playerNum, k, j);
    }
  }

  lemma PlayersWritesSlots(ps: seq<Player>, playerNum: int, current: Option<Player>, next: Option<Player>)
    ensures SlotsFrom(PlayersWrites(ps, playerNum, current, next), PassedFlagSlot)
  {
    var bs := SeatBlocks(ps, playerNum, current, next, 0);
    forall j | 0 <= j < |ps|
      ensures SlotsFrom(bs[j], PassedFlagSlot)
    {
      OffsetRange(ps, playerNum, j);
      PlayerWritesSlots(ps[j], Offset(ps, playerNum, j), current, next);
    }
    JoinedSlotsFrom(bs, 0, PassedFlagSlot);
  }

  lemma {:induction false} JoinedSlotsFrom(bs: seq<seq<Write>>, from: nat, lo: int)
    requires forall j :: from <= j < |bs| ==> SlotsFrom(bs[j], lo)
    ensures SlotsFrom(Joined(bs, from), lo)
    decreases |bs| - from
  {
    if from < |bs| {
      JoinedSlotsFrom(bs, from + 1, lo);
      SlotsConcat(bs[from], Joined(bs, from + 1), lo);
    }
  }

  /** Stores that all go to slot `lo` or above still do one after the other. */
  lemma SlotsConcat(a: seq<Write>, b: seq<Write>, lo: int)
    requires SlotsFrom(a, lo) && SlotsFrom(b, lo)
    ensures SlotsFrom(a + b, lo)
  {
    forall i | 0 <= i < |a + b|
      ensures lo <= (a + b)[i].slot
    {
      if i >= |a| {
        assert (a + b)[i] == b[i - |a|];
      }
    }
  }

  lemma {:induction false} PassFlagWritesSlots(ps: seq<Player>, playerNum: int, top: int, from: nat)
    requires from <= |ps|
    ensures forall k :: 0 <= k < |PassFlagWrites(ps, playerNum, top, from)| ==>
              IsPassFlagSlot(PassFlagWrites(ps, playerNum, top, from)[k].slot)
    decreases |ps| - from
  {
    if from < |ps| {
      PassFlagWritesSlots(ps, playerNum, top, from + 1);
    }
  }

  // ----- the final content of a slot -----

  lemma {:induction false} WhammyLastValue(offset: int, count: int, x: int, d: int)
    ensures LastValue(WhammyWrites(offset, count), x, d) ==
              if offset + 2 <= x < offset + 2 + count then 1 else d
    decreases count
  {
    if count > 0 {
      WhammyLastValue(offset, count - 1, x, d);
      LastValueAppend(WhammyWrites(offset, count - 1), [Write(offset + 1 + count, 1)], x, d);
    }
  }

  /** Slot `x` of the block at `offset` after one player's stores, starting
      from `d`. */
  function BlockValue(p: Player, offset: int, current: Option<Player>, next: Option<Player>, x: int, d: int): int {
    var isCurrent := current.Some? && Equals(p, current.value);
    var isNext := next.Some? && Equals(p, next.value);
    if x == offset then (if isCurrent then 1 else d)
    else if x == offset + 1 then (if !isCurrent && isNext then 1 else d)
    else if offset + 2 <= x < offset + 6 then (if x < offset + 2 + p.whammies then 1 else d)
    else if x == offset + 6 then p.score
    else if x == offset + 7 then p.earned
    else if x == offset + 8 then p.passed
    else d
  }

  lemma PlayerLastValue(p: Player, offset: int, current: Option<Player>, next: Option<Player>, x: int, d: int)
    requires offset >= OwnOffset && p.whammies <= 4 && offset <= x < offset + 9
    ensures LastValue(PlayerWrites(p, offset, current, next), x, d) == BlockValue(p, offset, current, next, x, d)
  {
    var turn := TurnWrites(p, offset, current, next);
    var whammies := WhammyWrites(offset, p.whammies);
    var tail := [Write(offset + 6, p.score), Write(offset + 7, p.earned), Write(offset + 8, p.passed)];
    LastValueAppend(turn + whammies, tail, x, d);
    LastValueAppend(turn, whammies, x, d);
    TurnLastValue(p, offset, current, next, x, d);
    WhammyLastValue(offset, p.whammies, x, LastValue(turn, x, d));
    var afterWhammies := LastValue(turn + whammies, x, d);
    LastValueCons(tail[0], tail[1..], x, afterWhammies);
    LastValueCons(tail[1], tail[2..], x, if tail[0].slot == x then tail[0].value else afterWhammies);
    assert tail == [tail[0]] + tail[1..] && tail[1..] == [tail[1]] + tail[2..];
    assert tail[2..] == [tail[2]] + [];
  }

  /** The turn marks: slot 0 of the block for the current player, slot 1 for
      the next one. */
  lemma TurnLastValue(p: Player, offset: int, current: Option<Player>, next: Option<Player>, x: int, d: int)
    requires offset >= OwnOffset && offset <= x
    ensures var isCurrent := current.Some? && Equals(p, current.value);
            var isNext := next.Some? && Equals(p, next.value);
            LastValue(TurnWrites(p, offset, current, next), x, d) ==
              if x == offset && isCurrent then 1
              else if x == offset + 1 && !isCurrent && isNext then 1
              else d
  {
    var turn := TurnWrites(p, offset, current, next);
    if turn != [] {
      LastValueCons(turn[0], turn[1..], x, d);
      assert turn == [turn[0]] + turn[1..];
      if |turn| == 2 {
        assert turn[1..] == [turn[1]] + [];
        LastValueCons(turn[1], [], x, if turn[0].slot == x then turn[0].value else d);
      }
    }
  }

  /** Slot `x` of one seat's block ends with that seat's value: the other
      seats' stores stay out of it. */
  lemma PlayersLastValue(ps: seq<Player>, playerNum: int, current: Option<Player>, next: Option<Player>,
                         k: nat, x: int, d: int)
    requires Numbered(ps) && k < |ps|
    requires forall j :: 0 <= j < |ps| ==> ps[j].whammies <= 4
    requires Offset(ps, playerNum, k) <= x < Offset(ps, playerNum, k) + 9
    ensures LastValue(PlayersWrites(ps, playerNum, current, next), x, d) ==
              LastValue(PlayerWrites(ps[k], Offset(ps, playerNum, k), current, next), x, d)
  {
    var bs := SeatBlocks(ps, playerNum, current, next, 0);
    forall j | 0 <= j < |ps| && j != k
      ensures Untouched(bs[j], x)
    {
      OffsetRange(ps, playerNum, k);
      OffsetRange(ps, playerNum, j);
      OffsetsApart(ps, playerNum, j, k);
      PlayerWritesSlots(ps[j], Offset(ps, playerNum, j), current, next);
    }
    JoinedLastValue(bs, 0, k, x, d);
  }

  /** Only block `k` of the joined stores reaches slot `x`. */
  lemma {:induction false} JoinedLastValue(bs: seq<seq<Write>>, from: nat, k: nat, x: int, d: int)
    requires k < |bs|
    requires forall j :: from <= j < |bs| && j != k ==> Untouched(bs[j], x)
    ensures LastValue(Joined(bs, from), x, d) == if from <= k then LastValue(bs[k], x, d) else d
    decreases |bs| - from
  {
    if from < |bs| {
      LastValueAppend(bs[from], Joined(bs, from + 1), x, d);
      if from == k {
        JoinedLastValue(bs, from + 1, k, x, LastValue(bs[k], x, d));
      } else {
        LastValueUntouched(bs[from], x, d);
        JoinedLastValue(bs, from + 1, k, x, d);
      }
    }
  }

  lemma {:induction false} PassFlagLastValue(ps: seq<Player>, playerNum: int, top: int, from: nat, k: nat, d: int)
    requires from <= |ps| && k < |ps| && ps[k].num != playerNum
    ensures LastValue(PassFlagWrites(ps, playerNum, top, from), PassFlagSlot(Opponents(ps, playerNum, k) + 1), d) ==
              if from <= k && ps[k].score == top then 1 else d
    decreases |ps| - from
  {
    if from < |ps| {
      var x := PassFlagSlot(Opponents(ps, playerNum, k) + 1);
      var flag := if ps[from].num != playerNum && ps[from].score == top
                  then [Write(PassFlagSlot(Opponents(ps, playerNum, from) + 1), 1)] else [];
      var rest := PassFlagWrites(ps, playerNum, top, from + 1);
      LastValueAppend(flag, rest, x, d);
      if from < k {
        OpponentsMonotone(ps, playerNum, from, k);
      } else if k < from {
        OpponentsMonotone(ps, playerNum, k, from);
      }
      PassFlagLastValue(ps, playerNum, top, from + 1, k, LastValue(flag, x, d));
    }
  }

  // ----- what the vector holds -----

  /** Slots 0-2: the constant 1, the round counted from 0, and the Double
      flag; no later store touches them. */
  lemma StateVectorHeader(ps: seq<Player>, playerNum: int, round: int, doubleInPlay: bool,
                          current: Option<Player>, next: Option<Player>)
    ensures var r := StateVector(ps, playerNum, round, doubleInPlay, current, next);
            r.Some? ==> r.value[0] == 1 && r.value[1] == round - 1 && r.value[2] == (if doubleInPlay then 1 else 0)
  {
    var players := PlayersWrites(ps, playerNum, current, next);
    var flags := PassFlagWrites(ps, playerNum, MaxOpponentScore(ps, playerNum, |ps|), 0);
    var header := HeaderWrites(round, doubleInPlay);
    PlayersWritesSlots(ps, playerNum, current, next);
    PassFlagWritesSlots(ps, playerNum, MaxOpponentScore(ps, playerNum, |ps|), 0);
    forall x | 0 <= x < 3
      ensures LastValue(header + players + flags, x, 0) == LastValue(header, x, 0)
    {
      LastValueAppend(header + players, flags, x, 0);
      LastValueAppend(header, players, x, 0);
      LastValueUntouched(players, x, LastValue(header, x, 0));
      LastValueUntouched(flags, x, LastValue(header + players, x, 0));
    }
    forall x | 0 <= x < 3
      ensures LastValue(header, x, 0) == header[x].value
    {
      assert header == [header[0]] + ([header[1]] + ([header[2]] + []));
      LastValueCons(header[0], [header[1]] + ([header[2]] + []), x, 0);
      LastValueCons(header[1], [header[2]] + [], x, if x == 0 then 1 else 0);
      LastValueCons(header[2], [], x, if x == 1 then header[1].value else if x == 0 then 1 else 0);
    }
  }

  /** No slot of a block is a pass-target flag slot. */
  lemma BlockAvoidsPassFlags(ps: seq<Player>, playerNum: int, k: nat, x: int)
    requires k < |ps| && Offset(ps, playerNum, k) <= x < Offset(ps, playerNum, k) + 9
    ensures !IsPassFlagSlot(x)
  {
    OffsetRange(ps, playerNum, k);
    if ps[k].num != playerNum {
      var c := Opponents(ps, playerNum, k);
      var y := x - 10 * c;
      assert 13 <= y < 22;
      assert (x - 22) % 10 == (y - 22) % 10 by {
        ModUnique(x - 22, 10, (y - 22) / 10 + c, (y - 22) % 10);
      }
    }
  }

  /** The state vector at slot `x` is the last value stored there. */
  lemma StateVectorSlot(ps: seq<Player>, playerNum: int, round: int, doubleInPlay: bool,
                        current: Option<Player>, next: Option<Player>, x: int)
    requires 0 <= x < VectorSize
    ensures var r := StateVector(ps, playerNum, round, doubleInPlay, current, next);
            r.Some? ==> r.value[x] == LastValue(AllWrites(ps, playerNum, round, doubleInPlay, current, next), x, 0)
  {
  }

  /** Each seat's block of nine slots: the turn marks, one flag per whammy,
      then score, earned spins and passed spins.  The requester's block
      starts at slot 4 and the n-th opponent's at 3 + 10 * n. */
  lemma StateVectorBlock(ps: seq<Player>, playerNum: int, round: int, doubleInPlay: bool,
                         current: Option<Player>, next: Option<Player>, k: nat)
    requires Numbered(ps) && k < |ps| && forall j :: 0 <= j < |ps| ==> ps[j].whammies <= 4
    ensures var r := StateVector(ps, playerNum, round, doubleInPlay, current, next);
            var offset := Offset(ps, playerNum, k);
            r.Some? ==> offset + 9 <= VectorSize
    ensures var r := StateVector(ps, playerNum, round, doubleInPlay, current, next);
            var offset := Offset(ps, playerNum, k);
            r.Some? ==> forall x :: offset <= x < offset + 9 ==>
                          r.value[x] == BlockValue(ps[k], offset, current, next, x, 0)
  {
    var r := StateVector(ps, playerNum, round, doubleInPlay, current, next);
    var offset := Offset(ps, playerNum, k);
    var header := HeaderWrites(round, doubleInPlay);
    var players := PlayersWrites(ps, playerNum, current, next);
    var top := MaxOpponentScore(ps, playerNum, |ps|);
    var flags := PassFlagWrites(ps, playerNum, top, 0);
    if r.Some? {
      assert offset + 9 <= VectorSize by {
        assert InBounds(header + players + flags, VectorSize);
        PlayerIncluded(ps, playerNum, current, next, k);
        var i :| 0 <= i < |players| && players[i] == Write(offset + 8, ps[k].passed);
        assert (header + players + flags)[|header| + i] == players[i];
      }
      forall x | offset <= x < offset + 9
        ensures r.value[x] == BlockValue(ps[k], offset, current, next, x, 0)
      {
        OffsetRange(ps, playerNum, k);
        StateVectorSlot(ps, playerNum, round, doubleInPlay, current, next, x);
        LastValueAppend(header + players, flags, x, 0);
        LastValueAppend(header, players, x, 0);
        LastValueUntouched(header, x, 0);
        PlayersLastValue(ps, playerNum, current, next, k, x, 0);
        PlayerLastValue(ps[k], offset, current, next, x, 0);
        BlockAvoidsPassFlags(ps, playerNum, k, x);
        PassFlagWritesSlots(ps, playerNum, top, 0);
        LastValueUntouched(flags, x, LastValue(header + players, x, 0));
      }
    }
  }

  /** Seat `k`'s passed-spins store is among the first loop's stores. */
  lemma PlayerIncluded(ps: seq<Player>, playerNum: int, current: Option<Player>, next: Option<Player>, k: nat)
    requires k < |ps|
    ensures Write(Offset(ps, playerNum, k) + 8, ps[k].passed) in PlayersWrites(ps, playerNum, current, next)
  {
    var bs := SeatBlocks(ps, playerNum, current, next, 0);
    var block := bs[k];
    assert block[|block| - 1] == Write(Offset(ps, playerNum, k) + 8, ps[k].passed);
    JoinedIncludes(bs, 0, k, block[|block| - 1]);
  }

  /** Every store of block `k` is among the joined stores. */
  lemma {:induction false} JoinedIncludes(bs: seq<seq<Write>>, from: nat, k: nat, w: Write)
    requires from <= k < |bs| && w in bs[k]
    ensures w in Joined(bs, from)
    decreases k - from
  {
    if from < k {
      JoinedIncludes(bs, from + 1, k, w);
    }
  }

  /** The requester's own block, slots 4-12: slot 4 marks their turn, slots
      6-9 hold one flag per whammy, and slots 10-12 their score, earned and
      passed spins. */
  lemma StateVectorOwnBlock(ps: seq<Player>, playerNum: int, round: int, doubleInPlay: bool,
                            current: Option<Player>, next: Option<Player>)
    requires Numbered(ps) && 1 <= playerNum <= |ps| && forall j :: 0 <= j < |ps| ==> ps[j].whammies <= 4
    ensures var r := StateVector(ps, playerNum, round, doubleInPlay, current, next);
            var me := ps[playerNum - 1];
            r.Some? ==>
              && r.value[4] == (if current.Some? && Equals(me, current.value) then 1 else 0)
              && (forall x :: 6 <= x < 10 ==> r.value[x] == if x - 6 < me.whammies then 1 else 0)
              && r.value[10] == me.score && r.value[11] == me.earned && r.value[12] == me.passed
  {
    StateVectorBlock(ps, playerNum, round, doubleInPlay, current, next, playerNum - 1);
  }

  /** No store of the first loop goes to a pass-target flag slot. */
  lemma PlayersAvoidPassFlags(ps: seq<Player>, playerNum: int, current: Option<Player>, next: Option<Player>, x: int)
    requires IsPassFlagSlot(x) && forall j :: 0 <= j < |ps| ==> ps[j].whammies <= 4
    ensures Untouched(PlayersWrites(ps, playerNum, current, next), x)
  {
    var bs := SeatBlocks(ps, playerNum, current, next, 0);
    forall j | 0 <= j < |ps|
      ensures Untouched(bs[j], x)
    {
      var block := bs[j];
      OffsetRange(ps, playerNum, j);
      PlayerWritesSlots(ps[j], Offset(ps, playerNum, j), current, next);
      forall i | 0 <= i < |block|
        ensures block[i].slot != x
      {
        if block[i].slot != PassedFlagSlot {
          BlockAvoidsPassFlags(ps, playerNum, j, block[i].slot);
        }
      }
    }
    JoinedUntouched(bs, 0, x);
  }

  lemma {:induction false} JoinedUntouched(bs: seq<seq<Write>>, from: nat, x: int)
    requires forall j :: from <= j < |bs| ==> Untouched(bs[j], x)
    ensures Untouched(Joined(bs, from), x)
    decreases |bs| - from
  {
    if from < |bs| {
      JoinedUntouched(bs, from + 1, x);
      UntouchedConcat(bs[from], Joined(bs, from + 1), x);
    }
  }

  /** Stores that both avoid a slot still avoid it one after the other. */
  lemma UntouchedConcat(a: seq<Write>, b: seq<Write>, x: int)
    requires Untouched(a, x) && Untouched(b, x)
    ensures Untouched(a + b, x)
  {
    forall i | 0 <= i < |a + b|
      ensures (a + b)[i].slot != x
    {
      if i >= |a| {
        assert (a + b)[i] == b[i - |a|];
      }
    }
  }

  /** The n-th opponent's pass-target flag, slot 12 + 10 * n, is set exactly
      when their score equals the highest opponent score (counted from 0). */
  lemma StateVectorPassFlag(ps: seq<Player>, playerNum: int, round: int, doubleInPlay: bool,
                            current: Option<Player>, next: Option<Player>, k: nat)
    requires Numbered(ps) && k < |ps| && ps[k].num != playerNum
    requires forall j :: 0 <= j < |ps| ==> ps[j].whammies <= 4
    ensures var r := StateVector(ps, playerNum, round, doubleInPlay, current, next);
            r.Some? ==> PassFlagSlot(Opponents(ps, playerNum, k) + 1) < VectorSize
    ensures var r := StateVector(ps, playerNum, round, doubleInPlay, current, next);
            r.Some? ==>
              r.value[PassFlagSlot(Opponents(ps, playerNum, k) + 1)] ==
                if ps[k].score == MaxOpponentScore(ps, playerNum, |ps|) then 1 else 0
  {
    var r := StateVector(ps, playerNum, round, doubleInPlay, current, next);
    var x := PassFlagSlot(Opponents(ps, playerNum, k) + 1);
    var header := HeaderWrites(round, doubleInPlay);
    var players := PlayersWrites(ps, playerNum, current, next);
    var top := MaxOpponentScore(ps, playerNum, |ps|);
    var flags := PassFlagWrites(ps, playerNum, top, 0);
    if r.Some? {
      assert x < VectorSize by {
        StateVectorBlock(ps, playerNum, round, doubleInPlay, current, next, k);
        OffsetRange(ps, playerNum, k);
      }
      StateVectorSlot(ps, playerNum, round, doubleInPlay, current, next, x);
      assert LastValue(header + players, x, 0) == 0 by {
        LastValueAppend(header, players, x, 0);
        LastValueUntouched(header, x, 0);
        PlayersAvoidPassFlags(ps, playerNum, current, next, x);
        LastValueUntouched(players, x, 0);
      }
      LastValueAppend(header + players, flags, x, 0);
      PassFlagLastValue(ps, playerNum, top, 0, k, 0);
    }
  }

  /** Some seat before `n` is the opponent with exactly `c` opponents before
      it. */
  lemma {:induction false} OpponentAt(ps: seq<Player>, playerNum: int, c: nat, n: nat) returns (k: nat)
    requires n <= |ps| && c < Opponents(ps, playerNum, n)
    ensures k < n && ps[k].num != playerNum && Opponents(ps, playerNum, k) == c
    decreases n
  {
    if c < Opponents(ps, playerNum, n - 1) {
      k := OpponentAt(ps, playerNum, c, n - 1);
    } else {
      k := n - 1;
    }
  }

  lemma PlayersWritesInBounds(ps: seq<Player>, playerNum: int, current: Option<Player>, next: Option<Player>)
    requires Opponents(ps, playerNum, |ps|) <= 2
    requires forall j :: 0 <= j < |ps| ==> ps[j].whammies <= 4
    ensures InBounds(PlayersWrites(ps, playerNum, current, next), VectorSize)
  {
    var bs := SeatBlocks(ps, playerNum, current, next, 0);
    forall j | 0 <= j < |ps|
      ensures InBounds(bs[j], VectorSize)
    {
      OffsetRange(ps, playerNum, j);
      OpponentsMonotone(ps, playerNum, j, |ps|);
      PlayerWritesSlots(ps[j], Offset(ps, playerNum, j), current, next);
    }
    JoinedInBounds(bs, 0, VectorSize);
  }

  lemma {:induction false} JoinedInBounds(bs: seq<seq<Write>>, from: nat, size: int)
    requires forall j :: from <= j < |bs| ==> InBounds(bs[j], size)
    ensures InBounds(Joined(bs, from), size)
    decreases |bs| - from
  {
    if from < |bs| {
      JoinedInBounds(bs, from + 1, size);
      InBoundsConcat(bs[from], Joined(bs, from + 1), size);
    }
  }

  lemma {:induction false} PassFlagWritesInBounds(ps: seq<Player>, playerNum: int, top: int, from: nat)
    requires from <= |ps| && Opponents(ps, playerNum, |ps|) <= 2
    ensures InBounds(PassFlagWrites(ps, playerNum, top, from), VectorSize)
    decreases |ps| - from
  {
    if from < |ps| {
      OpponentsMonotone(ps, playerNum, from, |ps|);
      PassFlagWritesInBounds(ps, playerNum, top, from + 1);
    }
  }

  /** With at most four whammies each, the vector can be built exactly when
      there are at most two opponents; a third opponent's block would start
      at slot 33. */
  lemma StateVectorDefined(ps: seq<Player>, playerNum: int, round: int, doubleInPlay: bool,
                           current: Option<Player>, next: Option<Player>)
    requires forall j :: 0 <= j < |ps| ==> ps[j].whammies <= 4
    ensures StateVector(ps, playerNum, round, doubleInPlay, current, next).Some? <==>
              Opponents(ps, playerNum, |ps|) <= 2
  {
    var header := HeaderWrites(round, doubleInPlay);
    var players := PlayersWrites(ps, playerNum, current, next);
    var top := MaxOpponentScore(ps, playerNum, |ps|);
    var flags := PassFlagWrites(ps, playerNum, top, 0);
    assert AllWrites(ps, playerNum, round, doubleInPlay, current, next) == header + players + flags;
    if Opponents(ps, playerNum, |ps|) <= 2 {
      PlayersWritesInBounds(ps, playerNum, current, next);
      PassFlagWritesInBounds(ps, playerNum, top, 0);
      InBoundsConcat(header, players, VectorSize);
      InBoundsConcat(header + players, flags, VectorSize);
    } else {
      var k := OpponentAt(ps, playerNum, 2, |ps|);
      PlayerIncluded(ps, playerNum, current, next, k);
      var i :| 0 <= i < |players| && players[i] == Write(Offset(ps, playerNum, k) + 8, ps[k].passed);
      assert (header + players + flags)[|header| + i] == players[i];
    }
  }

  /** Stores that all stay inside the array still do one after the other. */
  lemma InBoundsConcat(a: seq<Write>, b: seq<Write>, size: int)
    requires InBounds(a, size) && InBounds(b, size)
    ensures InBounds(a + b, size)
  {
    forall i | 0 <= i < |a + b|
      ensures 0 <= (a + b)[i].slot < size
    {
      if i >= |a| {
        assert (a + b)[i] == b[i - |a|];
      }
    }
  }

  // ----- the passed-spins flag -----

  /** Every store of `ws` to slot `x` stores 1. */
  predicate StoresOneAt(ws: seq<Write>, x: int) {
    forall k :: 0 <= k < |ws| && ws[k].slot == x ==> ws[k].value == 1
  }

  /** A slot only ever set to 1 ends at 1 once any store reaches it, and keeps
      its starting value otherwise. */
  lemma {:induction false} LastValueFlag(ws: seq<Write>, x: int, d: int)
    requires StoresOneAt(ws, x)
    ensures LastValue(ws, x, d) == if Untouched(ws, x) then d else 1
    decreases |ws|
  {
    if |ws| > 0 {
      var d' := if ws[0].slot == x then 1 else d;
      assert StoresOneAt(ws[1..], x);
      LastValueFlag(ws[1..], x, d');
      assert Untouched(ws, x) <==> ws[0].slot != x && Untouched(ws[1..], x) by {
        if ws[0].slot != x && Untouched(ws[1..], x) {
          forall k | 0 <= k < |ws| ensures ws[k].slot != x {
            if k > 0 {
              assert ws[k] == ws[1..][k - 1];
            }
          }
        }
        if Untouched(ws, x) {
          forall k | 0 <= k < |ws[1..]| ensures ws[1..][k].slot != x {
            assert ws[1..][k] == ws[k + 1];
          }
        }
      }
    }
  }

  /** The seat that `equals` the current player and has passed spins. */
  predicate HoldsPassedTurn(p: Player, current: Option<Player>) {
    current.Some? && Equals(p, current.value) && p.passed > 0
  }

  /** One seat's stores reach slot 3 only to set it, and do so exactly when
      the seat is the current player and has passed spins. */
  lemma PlayerWritesFlag(p: Player, offset: int, current: Option<Player>, next: Option<Player>)
    requires offset >= OwnOffset
    ensures StoresOneAt(PlayerWrites(p, offset, current, next), PassedFlagSlot)
    ensures !Untouched(PlayerWrites(p, offset, current, next), PassedFlagSlot) <==> HoldsPassedTurn(p, current)
  {
    var ws := PlayerWrites(p, offset, current, next);
    var turn := TurnWrites(p, offset, current, next);
    assert ws == turn + (WhammyWrites(offset, p.whammies)
      + [Write(offset + 6, p.score), Write(offset + 7, p.earned), Write(offset + 8, p.passed)]);
    forall k | |turn| <= k < |ws| ensures ws[k].slot > PassedFlagSlot {
    }
    if HoldsPassedTurn(p, current) {
      assert ws[1] == Write(PassedFlagSlot, 1);
    }
  }

  /** Joined stores that only set slot `x` leave it at 1 when some block
      reaches it, and at its starting value otherwise. */
  lemma {:induction false} JoinedFlag(bs: seq<seq<Write>>, from: nat, x: int, d: int)
    requires forall j :: from <= j < |bs| ==> StoresOneAt(bs[j], x)
    ensures LastValue(Joined(bs, from), x, d) ==
              if exists j :: from <= j < |bs| && !Untouched(bs[j], x) then 1 else d
    decreases |bs| - from
  {
    if from < |bs| {
      LastValueAppend(bs[from], Joined(bs, from + 1), x, d);
      LastValueFlag(bs[from], x, d);
      JoinedFlag(bs, from + 1, x, LastValue(bs[from], x, d));
    }
  }

  /** The first loop leaves slot 3 at 1 exactly when some seat holds the
      current turn with passed spins. */
  lemma PlayersPassedFlag(ps: seq<Player>, playerNum: int, current: Option<Player>, next: Option<Player>, d: int)
    ensures LastValue(PlayersWrites(ps, playerNum, current, next), PassedFlagSlot, d) ==
              if exists k :: 0 <= k < |ps| && HoldsPassedTurn(ps[k], current) then 1 else d
  {
    var bs := SeatBlocks(ps, playerNum, current, next, 0);
    var x := PassedFlagSlot;
    forall j | 0 <= j < |bs|
      ensures StoresOneAt(bs[j], x)
      ensures !Untouched(bs[j], x) <==> HoldsPassedTurn(ps[j], current)
    {
      OffsetRange(ps, playerNum, j);
      PlayerWritesFlag(ps[j], Offset(ps, playerNum, j), current, next);
    }
    JoinedFlag(bs, 0, x, d);
  }

  /** Slot 3 is 1 exactly when a seat `equals` the current player and has
      passed spins to take, and 0 otherwise. */
  lemma StateVectorPassedFlag(ps: seq<Player>, playerNum: int, round: int, doubleInPlay: bool,
                              current: Option<Player>, next: Option<Player>)
    ensures var r := StateVector(ps, playerNum, round, doubleInPlay, current, next);
            r.Some? ==>
              r.value[PassedFlagSlot] ==
                if exists k :: 0 <= k < |ps| && HoldsPassedTurn(ps[k], current) then 1 else 0
  {
    var header := HeaderWrites(round, doubleInPlay);
    var players := PlayersWrites(ps, playerNum, current, next);
    var flags := PassFlagWrites(ps, playerNum, MaxOpponentScore(ps, playerNum, |ps|), 0);
    var x := PassedFlagSlot;
    assert AllWrites(ps, playerNum, round, doubleInPlay, current, next) == header + players + flags;
    assert LastValue(header, x, 0) == 0 by {
      LastValueUntouched(header, x, 0);
    }
    PlayersPassedFlag(ps, playerNum, current, next, 0);
    assert Untouched(flags, x) by {
      PassFlagWritesSlots(ps, playerNum, MaxOpponentScore(ps, playerNum, |ps|), 0);
    }
    LastValueAppend(header + players, flags, x, 0);
    LastValueAppend(header, players, x, 0);
    LastValueUntouched(flags, x, LastValue(header + players, x, 0));
    StateVectorSlot(ps, playerNum, round, doubleInPlay, current, next, x);
  }
}
