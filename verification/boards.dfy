/** The Press Your Luck board: a ring of spaces, the prize range, whether
    "Double Your $$ + 1 Spin" is in play, and which space is lit. */
module Boards {
  import opened JavaLang
  import opened Spaces

  datatype Board = Board(
    spaces: seq<Space>,
    doubleInPlay: bool,
    prizeMin: int,
    prizeMax: int,
    lightPos: int)

  /** The indices of the four corner spaces of the 18-space layout. */
  const Corners: seq<int> := [0, 5, 9, 14]

  /** The light is on a space and every space shows one of its codes. */
  predicate ValidBoard(b: Board) {
    && 0 <= b.lightPos < |b.spaces|
    && forall i :: 0 <= i < |b.spaces| ==> Spaces.Valid(b.spaces[i])
  }

  /** Every space of the board shows a code of the notation. */
  predicate ShowsWellFormed(b: Board)
    requires ValidBoard(b)
  {
    forall i :: 0 <= i < |b.spaces| ==> WellFormedCode(GetValue(b.spaces[i]))
  }

  function GetLitSpace(b: Board): Space
    requires ValidBoard(b)
  {
    b.spaces[b.lightPos]
  }

  function LitCode(b: Board): string
    requires ValidBoard(b)
  {
    GetValue(GetLitSpace(b))
  }

  // ----- construction from a layout -----

  /** A layout line after the Double draw: when Double is not in play every
      `D` on the line becomes `P`. */
  function LayoutLine(line: string, doubleDrawn: bool): (r: string)
    ensures !doubleDrawn ==> 'D' !in r
    ensures !doubleDrawn ==>
      |r| == |line| && forall i :: 0 <= i < |line| ==> r[i] == (if line[i] == 'D' then 'P' else line[i])
    ensures doubleDrawn ==> r == line
  {
    if 'D' in line && !doubleDrawn then Replace(line, 'D', 'P') else line
  }

  predicate PrizeLineParses(line: string) {
    var tokens := Split(line);
    |tokens| >= 2 && ParseInt(tokens[0]).Some? && ParseInt(tokens[1]).Some?
  }

  /** The spaces read from the layout lines after the prize line. */
  function LayoutSpaces(rest: seq<string>, doubleDrawn: bool): (r: seq<Space>)
    ensures |r| == |rest|
    ensures forall i :: 0 <= i < |rest| ==> r[i].pos == 0
    ensures forall i :: 0 <= i < |rest| ==> r[i].values == Split(LayoutLine(rest[i], doubleDrawn))
    ensures doubleDrawn ==> forall i :: 0 <= i < |rest| ==> r[i].values == Split(rest[i])
    ensures !doubleDrawn ==>
      forall i, k :: 0 <= i < |r| && 0 <= k < |r[i].values| ==> 'D' !in r[i].values[k]
    decreases |rest|
  {
    if |rest| == 0 then []
    else
      var line := LayoutLine(rest[0], doubleDrawn);
      assert !doubleDrawn ==> forall f :: f in Split(line) ==> 'D' !in f by {
        if !doubleDrawn {
          SplitAvoids(line, 'D');
        }
      }
      [NewSpace(Split(line))] + LayoutSpaces(rest[1..], doubleDrawn)
  }

  /** The `Board` constructor on the lines of a layout file (the first line
      holds the prize range, each further line one space's codes) and on the
      draw that decides whether Double is in play.  A missing or unreadable
      prize line ends the program, modelled by `None`. */
  function BuildBoard(lines: seq<string>, doubleDrawn: bool): (r: Option<Board>)
    ensures r.Some? <==> |lines| > 0 && PrizeLineParses(lines[0])
    ensures r.Some? ==> r.value.lightPos == 0 && |r.value.spaces| == |lines| - 1
    ensures r.Some? ==>
      && r.value.prizeMin == ParseInt(Split(lines[0])[0]).value
      && r.value.prizeMax == ParseInt(Split(lines[0])[1]).value
    ensures r.Some? ==>
      forall i :: 0 <= i < |r.value.spaces| ==>
        r.value.spaces[i].values == Split(LayoutLine(lines[i + 1], doubleDrawn))
    ensures r.Some? ==>
      forall i :: 0 <= i < |r.value.spaces| ==> r.value.spaces[i].pos == 0
    ensures r.Some? ==>
      (r.value.doubleInPlay <==> doubleDrawn && exists i :: 1 <= i < |lines| && 'D' in lines[i])
    ensures r.Some? && !doubleDrawn ==>
      forall i, k :: 0 <= i < |r.value.spaces| && 0 <= k < |r.value.spaces[i].values| ==>
        'D' !in r.value.spaces[i].values[k]
    ensures r.Some? && doubleDrawn ==>
      forall i :: 0 <= i < |r.value.spaces| ==> r.value.spaces[i].values == Split(lines[i + 1])
  {
    if |lines| == 0 || !PrizeLineParses(lines[0]) then None
    else
      var tokens := Split(lines[0]);
      var present := doubleDrawn && exists i :: 1 <= i < |lines| && 'D' in lines[i];
      Some(Board(LayoutSpaces(lines[1..], doubleDrawn), present,
                 ParseInt(tokens[0]).value, ParseInt(tokens[1]).value, 0))
  }

  /** A layout without any `D` builds the same board whether or not Double
      was drawn, except that Double is never in play. */
  lemma BuildBoardWithoutDouble(lines: seq<string>)
    requires forall i :: 1 <= i < |lines| ==> 'D' !in lines[i]
    ensures BuildBoard(lines, true).Some? <==> BuildBoard(lines, false).Some?
    ensures BuildBoard(lines, true).Some? ==>
      var (a, b) := (BuildBoard(lines, true).value, BuildBoard(lines, false).value);
      a.spaces == b.spaces && !a.doubleInPlay && !b.doubleInPlay
      && a.prizeMin == b.prizeMin && a.prizeMax == b.prizeMax && a.lightPos == b.lightPos
  {
    if BuildBoard(lines, true).Some? {
      var (a, b) := (BuildBoard(lines, true).value, BuildBoard(lines, false).value);
      forall i | 0 <= i < |a.spaces|
        ensures a.spaces[i] == b.spaces[i]
      {
        assert LayoutLine(lines[i + 1], false) == lines[i + 1];
      }
    }
  }

  // ----- the Double space -----

  /** Takes Double out of play: the lit space, which shows `D`, now shows `P`
      for good; nothing else on the board changes. */
  function RemoveDoubleFromPlay(b: Board): (r: Board)
    requires ValidBoard(b)
    ensures ValidBoard(r) && !r.doubleInPlay
    ensures LitCode(r) == "P"
    ensures r.lightPos == b.lightPos && |r.spaces| == |b.spaces|
    ensures r.prizeMin == b.prizeMin && r.prizeMax == b.prizeMax
    ensures forall i :: 0 <= i < |b.spaces| && i != b.lightPos ==> r.spaces[i] == b.spaces[i]
    ensures GetLitSpace(r).pos == GetLitSpace(b).pos
    ensures NumValues(GetLitSpace(r)) == NumValues(GetLitSpace(b))
    ensures forall k :: 0 <= k < |GetLitSpace(b).values| && k != GetLitSpace(b).pos ==>
      GetLitSpace(r).values[k] == GetLitSpace(b).values[k]
  {
    b.(doubleInPlay := false,
       spaces := b.spaces[b.lightPos := SetCurrentValue(b.spaces[b.lightPos], "P")])
  }

  // ----- prizes -----

  /** The bound handed to `nextInt`, computed in `int` arithmetic. */
  function PrizeBound(b: Board): int {
    Wrap(b.prizeMax - b.prizeMin + 1)
  }

  /** `getPrizeValue` with the draw of `nextInt` passed in: an amount in
      `[prizeMin, prizeMax]` when the range is non-empty and its size fits in
      an `int`.  The widest range overflows the bound to 0 and throws. */
  function PrizeValue(b: Board, draw: int): (r: Option<int>)
    requires DrawFits(PrizeBound(b), draw)
    ensures InInt(b.prizeMin) && InInt(b.prizeMax) && b.prizeMin <= b.prizeMax
              && b.prizeMax - b.prizeMin < IntMax ==>
            r.Some? && b.prizeMin <= r.value <= b.prizeMax
    ensures b.prizeMin == IntMin && b.prizeMax == IntMax ==> r.None?
  {
    match NextInt(PrizeBound(b), draw)
    case None => None
    case Some(d) => Some(Wrap(b.prizeMin + d))
  }

  // ----- stopping the board -----

  /** Shows a freshly drawn code on every space, in order; the first space
      without codes throws. */
  function RandomizeAll(spaces: seq<Space>, draws: seq<int>): (r: Option<seq<Space>>)
    requires |draws| == |spaces|
    requires forall i :: 0 <= i < |spaces| ==> DrawFits(NumValues(spaces[i]), draws[i])
    ensures r.Some? <==> forall i :: 0 <= i < |spaces| ==> NumValues(spaces[i]) > 0
    ensures r.Some? ==> |r.value| == |spaces|
    ensures r.Some? ==> forall i :: 0 <= i < |spaces| ==>
      && Spaces.Valid(r.value[i])
      && r.value[i].values == spaces[i].values
      && r.value[i].pos == draws[i]
    decreases |spaces|
  {
    if |spaces| == 0 then Some([])
    else
      match RandomizeValue(spaces[0], draws[0])
      case None => None
      case Some(s) =>
        match RandomizeAll(spaces[1..], draws[1..])
        case None => None
        case Some(rest) => Some([s] + rest)
  }

  /** `stopBoard`: every space shows a freshly drawn code, the light moves to a
      freshly drawn space, and that space is returned. */
  function StopBoard(b: Board, draws: seq<int>, lightDraw: int): (r: Option<(Board, Space)>)
    requires |draws| == |b.spaces|
    requires forall i :: 0 <= i < |b.spaces| ==> DrawFits(NumValues(b.spaces[i]), draws[i])
    requires DrawFits(|b.spaces|, lightDraw)
    ensures r.Some? <==>
      |b.spaces| > 0 && forall i :: 0 <= i < |b.spaces| ==> NumValues(b.spaces[i]) > 0
    ensures r.Some? ==> ValidBoard(r.value.0) && r.value.1 == GetLitSpace(r.value.0)
    ensures r.Some? ==> r.value.0.lightPos == lightDraw && |r.value.0.spaces| == |b.spaces|
    ensures r.Some? ==> forall i :: 0 <= i < |b.spaces| ==>
      r.value.0.spaces[i].values == b.spaces[i].values && r.value.0.spaces[i].pos == draws[i]
    ensures r.Some? ==> (r.value.0.doubleInPlay == b.doubleInPlay
      && r.value.0.prizeMin == b.prizeMin && r.value.0.prizeMax == b.prizeMax)
  {
    match RandomizeAll(b.spaces, draws)
    case None => None
    case Some(spaces) =>
      match NextInt(|spaces|, lightDraw)
      case None => None
      case Some(p) =>
        var nb := b.(spaces := spaces, lightPos := p);
        Some((nb, nb.spaces[p]))
  }

  // ----- move targets -----

  /** `to` lies `k` spaces from `from` around a ring of `size` spaces. */
  predicate StepsAway(size: int, from: int, to: int, k: int)
    requires size > 0
  {
    0 <= to < size && (from + k - to) % size == 0
  }

  /** The space `k` steps from the light, as the source computes it: `int`
      arithmetic and Java's `%`, which leaves a negative sum negative. */
  function JavaStep(b: Board, k: int): int
    requires |b.spaces| > 0
  {
    Rem(Wrap(b.lightPos + k), |b.spaces|)
  }

  /** The space `k` steps from the light, wrapping around the ring. */
  function RingStep(b: Board, k: int): (r: int)
    requires |b.spaces| > 0
    ensures StepsAway(|b.spaces|, b.lightPos, r, k)
  {
    var size := |b.spaces|;
    var r := (b.lightPos + k) % size;
    ModUnique(b.lightPos + k - r, size, (b.lightPos + k) / size, 0);
    r
  }

  function Step(b: Board, k: int, javaArithmetic: bool): int
    requires |b.spaces| > 0
  {
    if javaArithmetic then JavaStep(b, k) else RingStep(b, k)
  }

  /** `spaces.get(i)` for each index: a negative index throws. */
  function Fetch(idx: seq<int>, size: int): (r: Option<seq<int>>)
    ensures r.Some? <==> forall i :: 0 <= i < |idx| ==> 0 <= idx[i] < size
    ensures r.Some? ==> r.value == idx
  {
    if forall i :: 0 <= i < |idx| ==> 0 <= idx[i] < size then Some(idx) else None
  }

  /** The elements of `xs` other than `v`, in order. */
  function Without(xs: seq<int>, v: int): (r: seq<int>)
    ensures forall x :: x in r <==> x in xs && x != v
    decreases |xs|
  {
    if |xs| == 0 then [] else (if xs[0] == v then [] else [xs[0]]) + Without(xs[1..], v)
  }

  /** Pick-a-Corner: the corners other than the lit space; a board too small
      to have corner 14 throws. */
  function CornerTargets(b: Board): Option<seq<int>>
    requires ValidBoard(b)
  {
    Fetch(Without(Corners, b.lightPos), |b.spaces|)
  }

  /** The cash amounts of all shown codes; any code that throws in
      `getCashAmount` makes the whole scan throw. */
  function CashAmounts(spaces: seq<Space>): (r: Option<seq<int>>)
    requires forall i :: 0 <= i < |spaces| ==> Spaces.Valid(spaces[i])
    ensures r.Some? <==> forall i :: 0 <= i < |spaces| ==> GetCashAmount(spaces[i]).Some?
    ensures r.Some? ==> |r.value| == |spaces|
    ensures r.Some? ==> forall i :: 0 <= i < |spaces| ==> r.value[i] == GetCashAmount(spaces[i]).value
    decreases |spaces|
  {
    if |spaces| == 0 then Some([])
    else
      match GetCashAmount(spaces[0])
      case None => None
      case Some(c) =>
        match CashAmounts(spaces[1..])
        case None => None
        case Some(rest) => Some([c] + rest)
  }

  /** Big Bucks: the first space holding the largest cash amount. */
  function BigBucksTarget(b: Board): Option<seq<int>>
    requires ValidBoard(b)
  {
    match CashAmounts(b.spaces)
    case None => None
    case Some(cash) => Some([FirstArgMax(cash)])
  }

  /** `getMoveTargets`, with the step arithmetic chosen by `javaArithmetic`. */
  function MoveTargetsWith(b: Board, javaArithmetic: bool): Option<seq<int>>
    requires ValidBoard(b)
  {
    var code := LitCode(b);
    if |code| == 0 then None
    else if IsMoveChar(code[0]) then
      match ParseInt(code[1..])
      case None => None
      case Some(n) =>
        var back := if code[0] == 'M' || code[0] == '<' then [Step(b, -n, javaArithmetic)] else [];
        var forward := if code[0] == 'M' || code[0] == '>' then [Step(b, n, javaArithmetic)] else [];
        Fetch(back + forward, |b.spaces|)
    else if code[0] == 'C' then CornerTargets(b)
    else if code[0] == 'B' then BigBucksTarget(b)
    else Some([])
  }

  /** `getMoveTargets` as written: a backward move past space 0 gives Java's
      negative remainder and `spaces.get` throws. */
  function MoveTargetsAsWritten(b: Board): (r: Option<seq<int>>)
    requires ValidBoard(b)
    ensures r.Some? ==> forall i :: 0 <= i < |r.value| ==> 0 <= r.value[i] < |b.spaces|
  {
    MoveTargetsWith(b, true)
  }

  /** `getMoveTargets` with movement wrapping around the board. */
  function MoveTargets(b: Board): (r: Option<seq<int>>)
    requires ValidBoard(b)
    ensures r.Some? ==> forall i :: 0 <= i < |r.value| ==> 0 <= r.value[i] < |b.spaces|
    ensures (|LitCode(b)| > 0 && !IsMoveChar(LitCode(b)[0]) && LitCode(b)[0] != 'C'
              && LitCode(b)[0] != 'B') ==> r == Some([])
  {
    MoveTargetsWith(b, false)
  }

  /** Move, Go Back and Advance: `M n` offers the space `n` back and then the
      space `n` forward, `< n` only the one back, `> n` only the one forward. */
  lemma MoveTargetsOfMovement(b: Board, n: int)
    requires ValidBoard(b)
    requires var code := LitCode(b); |code| >= 2 && IsMoveChar(code[0]) && ParseInt(code[1..]) == Some(n)
    ensures var code := LitCode(b); var size := |b.spaces|;
      match MoveTargets(b)
      case None => false
      case Some(t) =>
        && (code[0] == 'M' ==> |t| == 2 && StepsAway(size, b.lightPos, t[0], -n)
                                        && StepsAway(size, b.lightPos, t[1], n))
        && (code[0] == '<' ==> |t| == 1 && StepsAway(size, b.lightPos, t[0], -n))
        && (code[0] == '>' ==> |t| == 1 && StepsAway(size, b.lightPos, t[0], n))
  {
  }

  predicate Increasing(xs: seq<int>) {
    forall i, j :: 0 <= i < j < |xs| ==> xs[i] < xs[j]
  }

  /** Dropping one value from an increasing sequence keeps it increasing. */
  lemma {:induction false} WithoutIncreasing(xs: seq<int>, v: int)
    requires Increasing(xs)
    ensures Increasing(Without(xs, v))
    decreases |xs|
  {
    if |xs| > 0 {
      var tail := xs[1..];
      assert Increasing(tail);
      WithoutIncreasing(tail, v);
      var w := Without(tail, v);
      if xs[0] != v {
        assert forall x :: x in w ==> xs[0] < x by {
          forall x | x in w ensures xs[0] < x {
            var k :| 0 <= k < |tail| && tail[k] == x;
            assert xs[k + 1] == x;
          }
        }
        assert Without(xs, v) == [xs[0]] + w;
        ConsIncreasing(xs[0], w);
      }
    }
  }

  /** Dropping a value that occurs at most once shortens a sequence by one
      exactly when the value was there. */
  lemma {:induction false} WithoutLength(xs: seq<int>, v: int)
    requires Increasing(xs)
    ensures |Without(xs, v)| == if v in xs then |xs| - 1 else |xs|
    decreases |xs|
  {
    if |xs| > 0 {
      var tail := xs[1..];
      assert Increasing(tail);
      WithoutLength(tail, v);
      if xs[0] == v {
        assert v !in tail by {
          forall k | 0 <= k < |tail| ensures tail[k] != v {
            assert xs[k + 1] == tail[k];
          }
        }
      }
      assert v in xs <==> xs[0] == v || v in tail;
    }
  }

  /** Putting a value before larger ones keeps a sequence increasing. */
  lemma ConsIncreasing(a: int, w: seq<int>)
    requires Increasing(w) && forall x :: x in w ==> a < x
    ensures Increasing([a] + w)
  {
    var r := [a] + w;
    forall i, j | 0 <= i < j < |r| ensures r[i] < r[j] {
      if i == 0 {
        assert r[j] == w[j - 1] && r[j] in w;
      } else {
        assert r[i] == w[i - 1] && r[j] == w[j - 1];
      }
    }
  }

  /** Pick-a-Corner on a board with all four corners offers exactly the
      corners other than the lit space, in increasing order: three when the
      light is on a corner, four otherwise. */
  lemma MoveTargetsOfCorner(b: Board)
    requires ValidBoard(b) && |b.spaces| > 14
    requires |LitCode(b)| > 0 && LitCode(b)[0] == 'C'
    ensures MoveTargets(b).Some?
    ensures var t := MoveTargets(b).value;
      && (forall x :: x in t <==> x in Corners && x != b.lightPos)
      && Increasing(t)
      && |t| == (if b.lightPos in Corners then 3 else 4)
  {
    var code := LitCode(b);
    assert !IsMoveChar(code[0]);
    assert MoveTargets(b) == CornerTargets(b);
    CornerTargetsOfLargeBoard(b);
  }

  /** On a board with all four corners the corner targets are the corners
      other than the lit space. */
  lemma CornerTargetsOfLargeBoard(b: Board)
    requires ValidBoard(b) && |b.spaces| > 14
    ensures CornerTargets(b) == Some(Without(Corners, b.lightPos))
    ensures var t := Without(Corners, b.lightPos);
      && (forall x :: x in t <==> x in Corners && x != b.lightPos)
      && Increasing(t)
      && |t| == (if b.lightPos in Corners then 3 else 4)
  {
    var t := Without(Corners, b.lightPos);
    WithoutIncreasing(Corners, b.lightPos);
    WithoutLength(Corners, b.lightPos);
    forall i | 0 <= i < |t| ensures 0 <= t[i] < |b.spaces| {
      assert t[i] in t;
      assert t[i] in Corners;
    }
  }

  /** Big Bucks offers a single space: the one with the largest cash amount,
      the lowest-numbered one among equals. */
  lemma MoveTargetsOfBigBucks(b: Board)
    requires ValidBoard(b) && ShowsWellFormed(b)
    requires |LitCode(b)| > 0 && LitCode(b)[0] == 'B'
    ensures MoveTargets(b).Some? && |MoveTargets(b).value| == 1
    ensures var t := MoveTargets(b).value[0];
      && 0 <= t < |b.spaces|
      && (forall i :: 0 <= i < |b.spaces| ==>
            GetCashAmount(b.spaces[i]).value <= GetCashAmount(b.spaces[t]).value)
      && (forall i :: 0 <= i < t ==>
            GetCashAmount(b.spaces[i]).value < GetCashAmount(b.spaces[t]).value)
  {
    forall i | 0 <= i < |b.spaces| ensures GetCashAmount(b.spaces[i]).Some? {
      CashAmountWellFormed(GetValue(b.spaces[i]));
    }
  }

  /** Where the Java arithmetic neither overflows nor goes below zero, the
      source's targets are the wrapped ones. */
  lemma MoveTargetsAgreeWithoutUnderflow(b: Board)
    requires ValidBoard(b)
    requires var code := LitCode(b);
      |code| > 0 && IsMoveChar(code[0]) ==>
        && |code| >= 2 && IsAmount(code[1..])
        && DecimalValue(code[1..]) <= b.lightPos
        && b.lightPos + DecimalValue(code[1..]) <= IntMax
    ensures MoveTargetsAsWritten(b) == MoveTargets(b)
  {
    var code := LitCode(b);
    if |code| > 0 && IsMoveChar(code[0]) {
      ParseAmount(code[1..]);
      var n := DecimalValue(code[1..]) as int;
      assert JavaStep(b, -n) == RingStep(b, -n);
      assert JavaStep(b, n) == RingStep(b, n);
    }
  }

  /** The source's backward move throws whenever it passes space 0 without
      landing on a whole number of laps. */
  lemma BackwardMoveThrows(b: Board, n: int)
    requires ValidBoard(b)
    requires var code := LitCode(b);
      |code| >= 2 && (code[0] == 'M' || code[0] == '<') && ParseInt(code[1..]) == Some(n)
    requires b.lightPos < n && (n - b.lightPos) % |b.spaces| != 0
    ensures MoveTargetsAsWritten(b) == None
    ensures MoveTargets(b).Some?
  {
    var code := LitCode(b);
    var size := |b.spaces|;
    assert InInt(n);
    assert Wrap(b.lightPos - n) == b.lightPos - n;
    assert JavaStep(b, -n) == -((n - b.lightPos) % size);
    var back := [JavaStep(b, -n)];
    var forward := if code[0] == 'M' then [JavaStep(b, n)] else [];
    assert (back + forward)[0] < 0;
    assert MoveTargetsWith(b, true) == Fetch(back + forward, size);
    var back' := [RingStep(b, -n)];
    var forward' := if code[0] == 'M' then [RingStep(b, n)] else [];
    assert MoveTargetsWith(b, false) == Fetch(back' + forward', size);
  }

  /** A concrete board: eighteen $100 spaces, the light on space 1 showing
      "Go Back 2".  The source throws; the wrapped move lands on space 17. */
  lemma GoBackTwoFromSpaceOne()
    ensures var b := Board(seq(18, i => Space(if i == 1 then ["<2"] else ["100"], 0)), false, 0, 0, 1);
      && ValidBoard(b)
      && LitCode(b) == "<2"
      && MoveTargetsAsWritten(b) == None
      && MoveTargets(b) == Some([17])
  {
    var b := Board(seq(18, i => Space(if i == 1 then ["<2"] else ["100"], 0)), false, 0, 0, 1);
    assert b.spaces[1] == Space(["<2"], 0);
    assert ValidBoard(b);
    assert LitCode(b) == "<2";
    assert "<2"[1..] == "2";
    assert "2"[..0] == "";
    assert DecimalValue("2") == 2;
    assert ParseInt("2") == Some(2);
    BackwardMoveThrows(b, 2);
    assert RingStep(b, -2) == 17;
    var code := LitCode(b);
    assert code[0] == '<' && IsMoveChar(code[0]) && code[1..] == "2";
    assert Step(b, -2, false) == 17;
    assert [Step(b, -2, false)] + [] == [17];
    assert MoveTargetsWith(b, false) == Fetch([Step(b, -2, false)] + [], |b.spaces|);
  }
}
