# Press Your Luck: a verified model of the game engine

This project models the engine of a simulator for the game show *Press Your
Luck*, together with its hand-written heuristic player, and proves properties
of the model in Dafny.

A game is played by a fixed set of players over a sequence of boards, one board
per round. Each board is a ring of spaces. Each space holds a list of codes in
"space notation", and shows one of them at a time. Some codes are cash amounts:
a plain amount, an amount plus a spin (`nS`) or an amount or the loss of a
whammy (`nL`). The others are single letters or movements:

- `W`: Whammy;
- `P`: Prize;
- `D`: Double Your $$ + 1 Spin;
- `A`: Add-a-One;
- `B`: Big Bucks;
- `C`: Pick-a-Corner;
- `Mn`, `<n`, `>n`: move `n` spaces both ways, back or forward.

Each round works as follows:

- Spins are handed out by four random draws.
- The turn order is sorted. In round 1 it is sorted by spins; later rounds sort
  it by score.
- Players with spins take turns. They first play any passed spins, then press
  or pass their earned spins.
- A player who passes gives their earned spins to the opponent with the highest
  score. When several opponents tie, the passer chooses among them.
- Four whammies eliminate a player.

After the last board the winners are the players left in the turn order with
the top score.

The modules follow the source files:

| module | file | models |
|---|---|---|
| `JavaLang` | `javalang.dfy` | the Java library behaviour the engine relies on: `int` range, the truncating `%`, `Random.nextInt` with the draw passed in, `Integer.parseInt`/`toString`, `split(",")`, `replace`, `%,d` grouping, `Stream.max` |
| `Spaces` | `spaces.dfy` | `Space`: its codes, the shown index, `getName` and `getCashAmount` |
| `Boards` | `boards.dfy` | `Board`: reading a layout, Double in play, prizes, stopping the board, `getMoveTargets` |
| `Players` | `players.dfy` | `Player`: the counters, the constructor, `compareTo` and `equals` |
| `Orders` | `orders.dfy` | turn orders and `Collections.sort` on them |
| `Games` | `games.dfy` | `Game.play`: reset, spin allocation, turn ordering, turn selection, passing, elimination and winners; plus `isFinalRound` and `isFinalSpin` |
| `NetInput` | `netinput.dfy` | `Game.getNeuralNetInput`, the 33-slot state vector |
| `Heuristic` | `heuristic.dfy` | `HeuristicPlayer`: `pressOrPass`, `chooseMoveTarget`, `moneyOrLoseWhammy`, `choosePassTarget` |

Some conventions of the model:

- Java objects become immutable datatypes, and each mutating method becomes a
  function returning the new value.
- An exception the Java code would throw becomes `None` of an `Option`. This
  covers `nextInt(0)`, `parseInt` on a non-number, a negative list index and an
  array store out of range.
- Every random draw, and every answer a strategy gives, is a parameter.
- A turn order is a sequence of seats (indices into the player array). After
  `play`'s reset, players are numbered by seat, so `equals` tells seats apart.

Notes on the engine's behaviour:

- The turn order is built once per game from all players, and each round
  re-sorts the surviving order (Game.java:56-57 and 86). It is not rebuilt every
  round.
- Winners come from sorting ascending and then reversing (Game.java:228-229), so
  tied winners are listed from the highest player number down.
  `Games.WinnersDescendBySeat` proves this.
- Double Your $$ is a single on/off flag per board (Board.java:60-67, 75).
- `HeuristicPlayer.choosePassTarget` takes a `List<Player>`, while `Player`
  declares `choosePassTarget(Player[])` (Player.java:231). The model takes a
  sequence.
- `Spaces.GetName` names a space with the corrected naming `Spaces.CodeName`,
  which reads the `S`/`L` suffix before parsing. The naming as written,
  `Spaces.CodeNameAsWritten`, throws on a one-digit amount (see Findings).
  `Spaces.CodeNameAgreesAsWritten` proves the two agree on every code of two or
  more characters.

## Model

| member | source | states |
|---|---|---|
| JavaLang.Rem | pyl/src/game/Board.java:155-160 | Java's `%` truncates toward zero: a negative dividend leaves a remainder in (-abs(b), 0], a non-negative one a remainder in [0, abs(b)), a dividend smaller than the divisor in magnitude is its own remainder, and the dividend minus the remainder is a multiple of the divisor, so `(a / b) * b + a % b == a` holds with the quotient truncated |
| JavaLang.NextInt | pyl/src/game/Space.java:79-82 | `nextInt(bound)` throws exactly when the bound is not positive, and otherwise returns the draw, which lies in [0, bound) |
| JavaLang.ParseIntToString | pyl/src/game/Space.java:134-143 | `Integer.parseInt` reads back every `int` that `Integer.toString` (and `StringBuilder.append`) writes |
| JavaLang.GroupedNatDigits | pyl/src/game/Space.java:152-157 | the `%,d` rendering of an amount, with its separators removed, is all digits and reads back as the amount |
| JavaLang.Split | pyl/src/game/Board.java:55-57 | `split(",")` returns a comma-free line whole; otherwise it returns a prefix of the comma-separated fields whose last field is not empty and after which every dropped field is empty; no field holds a comma |
| JavaLang.JoinFields | pyl/src/game/Board.java:68 | the comma-separated fields of a layout line, joined with commas, give the line back |
| JavaLang.Fields | pyl/src/game/Board.java:55-57 | the comma-separated fields of a line: at least one, none holding a comma (joining them back is JavaLang.JoinFields) |
| JavaLang.SplitAvoids | pyl/src/game/Board.java:65-68 | a character missing from a line is missing from every code split from it |
| JavaLang.Replace | pyl/src/game/Board.java:65 | `replace(from, to)` keeps the length, leaves no `from` when the characters differ, puts `to` at every position that held `from`, and keeps every other character |
| JavaLang.FirstArgMax | pyl/src/game/HeuristicPlayer.java:120-121 | `Stream.max` picks an entry no smaller than any other, and no earlier entry equals it |
| Spaces.SetCurrentValue | pyl/src/game/Space.java:70-73 | the shown code becomes the new one; the shown index, the number of codes and every other code stay |
| Spaces.RandomizeValue | pyl/src/game/Space.java:79-82 | it throws exactly for a space without codes; otherwise the space keeps its codes and shows the drawn one |
| Spaces.SetPos | pyl/src/game/Space.java:89-92 | the codes stay and the index becomes `p`, with no bounds check: the space is well formed exactly when `p` is in range |
| Spaces.SetPosThenGetValue | pyl/src/game/Space.java:60-63 | after `setPos(p)` with `p` in range, `getValue` returns code `p` |
| Spaces.CashAmount | pyl/src/game/Space.java:169-180 | a code that does not start with a digit is worth 0, and no amount is negative |
| Spaces.CashAmountOfCashCodes | pyl/src/game/Space.java:175-179 | the amount read from the codes `n`, `nS` and `nL` is `n` |
| Spaces.CashAmountWellFormed | pyl/src/game/Space.java:169-180 | every code of the notation has an amount: its number for cash codes, 0 for letters and movements |
| Spaces.LetterCodeNames | pyl/src/game/Space.java:114-131 | each of the six letter codes is named from its first character alone |
| Spaces.MoveCodeName | pyl/src/game/Space.java:132-146 | a movement code is named "Move ", "Go Back " or "Advance " by its first character, then its amount, then " Space" when the amount is 1 and " Spaces" otherwise |
| Spaces.CashCodeName | pyl/src/game/Space.java:147-157 | under the corrected naming, the cash codes `n`, `nS` and `nL` are named "$n", "$n + One Spin" and "$n or Lose-1-Whammy" with `n` digit-grouped, and the grouped digits read back as `n`; the naming as written gives the same names for `nS`, `nL`, and `n` from 10 on |
| Spaces.CodeNameAgreesAsWritten | pyl/src/game/Space.java:109-158 | on every code of two or more characters, `getName` as written and the corrected naming give the same result |
| Spaces.CodeNameTotal | pyl/src/game/Space.java:109-158 | with one-digit amounts handled, every code of the notation has a name |
| Spaces.CodeNameAsWritten | pyl/src/game/Space.java:109-158 | `getName` as written, including the parse of all but the last character before the suffix test; Spaces.OneDigitNameThrows and Spaces.CodeNameAgreesAsWritten state how it behaves |
| Spaces.CodeName | pyl/src/game/Space.java:109-158 | `getName` with the suffix tested before the parse; Spaces.LetterCodeNames, Spaces.MoveCodeName, Spaces.CashCodeName and Spaces.CodeNameTotal state the names it gives |
| Spaces.GetName | pyl/src/game/Space.java:109-158 | the name of the code a space shows, by the corrected naming Spaces.CodeName |
| Spaces.OneDigitNameThrows | pyl/src/game/Space.java:148-157 | the one-digit amount "5" is a valid code worth 5, yet `getName` as written throws on it; the corrected version names it "$5" |
| Boards.LayoutLine | pyl/src/game/Board.java:60-67 | with Double drawn the line is unchanged; otherwise it has the same length, every `D` becomes `P`, every other character stays, and no `D` is left |
| Boards.LayoutSpaces | pyl/src/game/Board.java:59-69 | one space per layout line, each showing its first code and holding the fields of its line after the Double replacement; when Double is drawn these are the line's own fields, otherwise no code contains `D` |
| Boards.BuildBoard | pyl/src/game/Board.java:44-76 | the board is built exactly when the prize line parses; the prize range is the first two numbers of that line; space `i` holds the fields of line `i + 1` after the Double replacement; the light starts on space 0; Double is in play exactly when it was drawn and some line holds a `D` |
| Boards.BuildBoardWithoutDouble | pyl/src/game/Board.java:44-76 | a layout with no `D` builds the same spaces, prize range and light whether or not Double was drawn, and Double is never in play |
| Boards.RemoveDoubleFromPlay | pyl/src/game/Board.java:97-101 | Double leaves play and the lit space shows `P`; every other space, the shown index and the prize range stay |
| Boards.PrizeValue | pyl/src/game/Board.java:108-112 | when the range's width fits in an `int`, the prize lies within [min, max]; with the widest range the bound wraps to 0 and the draw throws |
| Boards.RandomizeAll | pyl/src/game/Board.java:122-124 | every space shows its drawn code and keeps its codes; the loop throws exactly when some space has no codes |
| Boards.StopBoard | pyl/src/game/Board.java:120-127 | every space shows a drawn code, the light moves to the drawn space and that space is returned; it throws exactly for an empty board or a space without codes |
| Boards.CashAmounts | pyl/src/game/Board.java:173-176 | the cash amount of every shown code, in order; the scan throws exactly when one of the amounts throws |
| Boards.MoveTargetsAsWritten | pyl/src/game/Board.java:146-185 | whenever `getMoveTargets` as written returns, every target is a space of the board |
| Boards.MoveTargets | pyl/src/game/Board.java:146-185 | every target is a space of the board, and a lit code that is neither a movement, a corner nor Big Bucks has no targets |
| Boards.MoveTargetsWith | pyl/src/game/Board.java:146-185 | `getMoveTargets` with Java's or the wrapping arithmetic for a movement; Boards.MoveTargetsAsWritten, Boards.MoveTargets and Boards.MoveTargetsAgreeWithoutUnderflow state what each gives |
| Boards.MoveTargetsOfMovement | pyl/src/game/Board.java:151-162 | `Mn` offers the space `n` back then the space `n` forward; `<n` only the one back; `>n` only the one forward |
| Boards.MoveTargetsOfCorner | pyl/src/game/Board.java:163-170 | Pick-a-Corner offers exactly the corners 0, 5, 9 and 14 other than the lit space, in increasing order: three when the light is on a corner, four otherwise |
| Boards.CornerTargetsOfLargeBoard | pyl/src/game/Board.java:163-170 | on a board with all four corners, the corner scan yields the corners other than the lit space, three or four of them |
| Boards.MoveTargetsOfBigBucks | pyl/src/game/Board.java:171-183 | Big Bucks offers one space, the one with the largest cash amount, and the lowest-numbered one among equals |
| Boards.MoveTargetsAgreeWithoutUnderflow | pyl/src/game/Board.java:151-162 | where a movement neither passes space 0 backwards nor overflows, the code as written and the wrapped move give the same targets |
| Boards.BackwardMoveThrows | pyl/src/game/Board.java:155-156 | a backward move past space 0 that is not a whole number of laps throws as written, while the wrapped move succeeds |
| Boards.GoBackTwoFromSpaceOne | pyl/src/game/Board.java:155-156 | on an 18-space board with the light on space 1 showing `<2`, the code as written throws, and the wrapped move lands on space 17 |
| Players.NewPlayer | pyl/src/game/Player.java:19-27 | a new player is number 1, with score, spins and whammies all 0 |
| Players.Compare | pyl/src/game/Player.java:159-168 | `compareTo` is -1, 0 or 1: negative when `a` has the lower score, or the same score and the lower number; 0 exactly when `equals` holds |
| Players.CompareAntisymmetric | pyl/src/game/Player.java:159-168 | swapping the players negates `compareTo` |
| Players.CompareTransitive | pyl/src/game/Player.java:159-168 | `compareTo` is transitive, both strictly and weakly |
| Players.EqualsIgnoresCounters | pyl/src/game/Player.java:179-183 | `equals` and `compareTo` ignore spins and whammies |
| Orders.Sort | pyl/src/game/Game.java:86 | sorting a turn order gives a permutation of it in ascending `compareTo` order |
| Orders.SortKeepsMembers | pyl/src/game/Game.java:86 | sorting neither adds nor drops a seat |
| Orders.AscendingUnique | pyl/src/game/Game.java:86 | with numbered players, every ascending permutation equals the one `Sort` gives, so any sorting algorithm produces the same order |
| Games.EqualsSameSeat | pyl/src/game/Game.java:48-55 | after the reset numbers players by seat, `equals` holds exactly between a seat and itself |
| Games.Reset | pyl/src/game/Game.java:48-57 | every player is numbered by seat with every counter 0, and the turn order lists every seat in seat order |
| Games.Award | pyl/src/game/Game.java:68-69 | a miss wins nothing; a hit wins three spins for the buzzed position and one spin for every other position |
| Games.AwardFrom | pyl/src/game/Game.java:67-71 | each player of the order from position `k` on gains its award as earned spins; every other player is unchanged |
| Games.AllocateOnce | pyl/src/game/Game.java:66-71 | one draw throws exactly when the turn order is empty; otherwise position `m` of the order gains exactly its award (three spins for the buzzed position on a hit, one for any other hit, none on a miss), and nothing else changes |
| Games.AllocateAsWritten | pyl/src/game/Game.java:65-72 | the draws throw exactly when the turn order is empty; otherwise position `m` of the order gains exactly the sum of its awards over the draws, and nothing else changes |
| Games.Allocate | pyl/src/game/Game.java:65-72 | with the empty order handled, nobody's spins change when everyone has been eliminated; otherwise the result is the code's, each position gaining the sum of its awards |
| Games.AwardedBetweenHits | pyl/src/game/Game.java:65-72 | over a round's draws a position wins between one and three spins per hit, so nothing exactly when it never hits, and exactly one per hit when it is never the buzzed position |
| Games.EmptyOrderAllocationThrows | pyl/src/game/Game.java:66 | once every player has been eliminated, the next board's allocation throws as written, while the corrected allocation changes nothing |
| Games.OrderRound | pyl/src/game/Game.java:81-91 | the round's order is a permutation of the old one; in round 1 it ascends by spins and scores end at 0; later it ascends by score and players are unchanged |
| Games.RoundOneOrderExample | pyl/src/game/Game.java:81-91 | with earned spins 2, 0 and 1, round 1 plays player 2, then player 3, then player 1 |
| Games.StartRound | pyl/src/game/Game.java:64-91 | only earned spins and scores change; position `m` of the order gains exactly the sum of its awards over the round's four draws, at most twelve, and players outside the order gain nothing; scores are 0 in round 1 and kept later; the order is a permutation of the old one |
| Games.FirstWithSpins | pyl/src/game/Game.java:102-104 | the first position from `from` on whose player has spins; none exactly when nobody there has any |
| Games.SelectTurn | pyl/src/game/Game.java:102-114 | the round ends exactly when nobody in the order has spins; otherwise the current turn is the first player with spins and the next turn the first after it, if any |
| Games.BestOtherMeaning | pyl/src/game/Game.java:166-178 | the best score is at least every other player's, and belongs to one of them unless it is the starting -1 |
| Games.OthersAtMeaning | pyl/src/game/Game.java:166-178 | the players collected at a score are exactly the other players of the order with that score |
| Games.PassTargets | pyl/src/game/Game.java:166-178 | the pass targets are the other players in the order tied at the highest score among them; the list is empty only when nobody else qualifies |
| Games.PassTargetsMeaning | pyl/src/game/Game.java:166-178 | every target is another player in the order, scores at least as much as every other player, and each such top scorer is a target |
| Games.ResolvePass | pyl/src/game/Game.java:179-212 | the passer's earned spins go to 0; with no target they are lost; otherwise the receiver gains them as passed spins and the total number of spins is kept |
| Games.Receiver | pyl/src/game/Game.java:182-205 | the pass receiver: the only target, or the one `choosePassTarget` picked among tied targets; Games.ResolvePass states what the pass does |
| Games.IndexOf | pyl/src/game/Game.java:220 | `List.remove` finds the first entry whose player `equals` the given one |
| Games.RemoveAtKeepsOthers | pyl/src/game/Game.java:219-221 | dropping an entry of a valid order leaves a valid order with every other seat and without that one |
| Games.EndTurn | pyl/src/game/Game.java:218-221 | a player with four whammies leaves the turn order and everyone else stays; otherwise the order is unchanged |
| Games.EliminatedStayOut | pyl/src/game/Game.java:64-91 | an eliminated player gets no spins in later rounds and does not come back into the order |
| Games.Reverse | pyl/src/game/Game.java:229 | `Collections.reverse` is a permutation placing entry `k` at `n - 1 - k` |
| Games.LeadingAtScore | pyl/src/game/Game.java:230-237 | the winners loop takes the longest prefix whose players all have the given score |
| Games.LeadingRunIsTop | pyl/src/game/Game.java:228-237 | along descending scores, the leading run is exactly the players with the top score |
| Games.Winners | pyl/src/game/Game.java:228-237 | there are winners exactly when somebody is left; winners are in the order, nobody left scores more, and everybody left with their score wins |
| Games.EliminatedNeverWin | pyl/src/game/Game.java:219-237 | an eliminated player is never among the winners |
| Games.WinnersDescendBySeat | pyl/src/game/Game.java:228-229 | tied winners are listed from the highest player number down |
| Games.JointWinnersExample | pyl/src/game/Game.java:228-237 | with scores 500, 500 and 300, players 1 and 2 win jointly, listed as player 2 then player 1 |
| Games.TotalSpinsNonNegative | pyl/src/game/Game.java:297-298 | with non-negative counters, the total number of spins is non-negative, and 0 exactly when nobody has a spin |
| Games.TotalSpins | pyl/src/game/Game.java:297-298 | the sum of earned plus passed spins over all players; Games.TotalSpinsNonNegative, Games.OneSpinLeft and Games.ResolvePass state its properties |
| Games.OneSpinLeft | pyl/src/game/Game.java:297-298 | a total of one spin means exactly one player holds exactly one spin |
| Games.IsFinalRound | pyl/src/game/Game.java:282-285 | the round in play uses the last board |
| Games.IsFinalSpin | pyl/src/game/Game.java:294-298 | the final round with one spin left in the game; Games.FinalSpinOneSpinner states it as one player holding the only spin |
| Games.FinalSpinOneSpinner | pyl/src/game/Game.java:283-299 | it is the final spin exactly when it is the final round and one player holds the game's only spin |
| NetInput.ApplyWrites | pyl/src/game/Game.java:331-376 | storing into the array leaves each slot with the last value stored there, or its starting value; a store out of range throws |
| NetInput.MaxOpponentScore | pyl/src/game/Game.java:338-347 | the running maximum is at least every opponent's score and 0, and is some opponent's score when positive |
| NetInput.OffsetRange | pyl/src/game/Game.java:340-343 | every block starts at slot 4 or later; the n-th opponent's block starts at 3 + 10n |
| NetInput.OffsetsApart | pyl/src/game/Game.java:339-366 | the nine-slot blocks of different seats do not overlap |
| NetInput.StateVectorDefined | pyl/src/game/Game.java:331-376 | the vector is built exactly when there are at most two opponents; a third opponent's block runs past slot 32 and throws |
| NetInput.StateVectorHeader | pyl/src/game/Game.java:333-335 | slot 0 is 1, slot 1 the round counted from 0, and slot 2 the Double flag |
| NetInput.StateVectorPassedFlag | pyl/src/game/Game.java:349-353 | slot 3 is 1 exactly when a seat `equals` the current player and has passed spins, and 0 otherwise |
| NetInput.TurnLastValue | pyl/src/game/Game.java:348-356 | a block's first slot marks the current player; its second marks the next player, unless that player is also current |
| NetInput.WhammyLastValue | pyl/src/game/Game.java:357-361 | the whammy slots of a block are 1 for each whammy held, counted from the block's third slot |
| NetInput.StateVectorBlock | pyl/src/game/Game.java:339-366 | every seat's nine slots hold exactly that seat's turn marks, whammies, score, earned spins and passed spins |
| NetInput.StateVectorOwnBlock | pyl/src/game/Game.java:339-366 | the requester's own block, at slots 4-12, holds its current-turn mark, whammy flags, score, earned spins and passed spins |
| NetInput.StateVectorPassFlag | pyl/src/game/Game.java:367-376 | the n-th opponent's flag at slot 12 + 10n is 1 exactly when their score equals the highest opponent score, and 0 otherwise |
| Heuristic.Amount | pyl/src/game/HeuristicPlayer.java:81-86 | a target's value is its cash amount when positive, the average prize for `P`, and -1 otherwise; valuing it throws exactly when its cash amount throws |
| Heuristic.BestOfMeaning | pyl/src/game/HeuristicPlayer.java:89-99 | each category's choice is worth the most in its category and more than -1, and is the first such target; there is none exactly when every target of the category is worth at most -1 |
| Heuristic.SelectTarget | pyl/src/game/HeuristicPlayer.java:80-107 | the loop finds the best of each category; the choice is worth more than -1, and there is no choice exactly when every target is worth at most -1 |
| Heuristic.ChooseMoveTarget | pyl/src/game/HeuristicPlayer.java:72-108 | it throws exactly when some target's cash amount throws; otherwise it returns a target worth more than -1, or null exactly when every target is worth at most -1 |
| Heuristic.DecideMeaning | pyl/src/game/HeuristicPlayer.java:101-107 | the decision names a target worth more than -1, and names none exactly when every target is worth at most -1 |
| Heuristic.SpinPreferred | pyl/src/game/HeuristicPlayer.java:101-107 | with targets of both kinds worth more than -1, the heuristic takes one with a spin, unless it is the final spin |
| Heuristic.MoneyOrLoseWhammy | pyl/src/game/HeuristicPlayer.java:111-114 | it takes the money exactly when the player already has two or more whammies, whatever the amount |
| Heuristic.ChoosePassTarget | pyl/src/game/HeuristicPlayer.java:117-122 | it picks the first target with the most whammies, and returns null only for an empty list |
| Heuristic.CountAtLeast | pyl/src/game/HeuristicPlayer.java:19-20 | the count of players among the first `n` seats whose score is at least `v` is the size of the set of those seats |
| Heuristic.Position | pyl/src/game/HeuristicPlayer.java:19-20 | a player's place is the number of players, themselves included, whose score is at least theirs; it lies between 1 and the number of players |
| Heuristic.BestOpponent | pyl/src/game/HeuristicPlayer.java:21-23 | the first of the other players with the highest score; there is none exactly when every player `equals` the asker |
| Heuristic.PressOrPass | pyl/src/game/HeuristicPlayer.java:16-69 | on the final spin: in first place, press when the gap is below the runner-up's expected cash; in second, when it is below your own; otherwise always press. Before that: third place in the final round presses; one earned spin in the final round passes; two whammies pass; an opponent with three whammies passes; otherwise the expected-value test decides. It presses only on the final spin, in third place in the final round, or when the expected-value test says so |
| Heuristic.PassesWithTwoWhammies | pyl/src/game/HeuristicPlayer.java:50-53 | outside the final round, a player who would take the money on Money or Lose-1-Whammy always passes |
| Heuristic.PressesInThirdPlace | pyl/src/game/HeuristicPlayer.java:42-45 | in third place in the final round the heuristic always presses, final spin included, when it has an opponent |

## Left out

- Spinning itself is not part of this model. That covers `Player.playSpin`, how a space's effect is applied, and the loops in `play` that call it (Game.java:135-158); `playSpin` does not appear in `Player.java`.
- `Player.hasSpins`, `addEarnedSpins` and `addPassedSpins` are called but not defined in `Player.java`. The model takes a player to have spins when earned + passed > 0, and the two `add` methods as `+=`.
- The round's loop of turns is not modelled as one function, since its termination rests on spins being used up in `playSpin`. Its steps are modelled separately: selection, passing and elimination.
- The board's `getExpCash`, `getExpSpins`, `getExpWhammies` and `getAveragePrizeValue` are not defined in `Board.java`. They, and `Game.getCurrentBoard`, enter the model as parameters.
- Heuristic.PressOrPass: the final expected-value comparison uses floating-point arithmetic (HeuristicPlayer.java:58-68). It is a boolean parameter here, and the first-place and second-place tests use a function parameter for `getExpCash`.
- Heuristic.ChoosePassTarget: modelled on the sequence of tied targets. The model ignores that `HeuristicPlayer` declares it on `List<Player>` while `Player` declares it on `Player[]`.
- Random draws are parameters: `nextInt` receives its draw, and each allocation draw is a buzz index plus one hit flag per position of the order. `Random.nextDouble` only serves to produce those flags.
- Scores are unbounded integers. `long` overflow is not modelled, including `Math.abs` of the most negative `long` (HeuristicPlayer.java:27). Nor is the conversion of `long` scores to `double` in the state vector.
- Player and space counters are unbounded integers; `int` overflow of spin and whammy counts is not modelled.
- Board.java:44-76 reads the layout file and exits the process on an error. The model takes the file's lines as a parameter and returns `None` where the program would print and exit.
- The setters of `Player` (Player.java:44-127) are Dafny's record update `p.(field := v)`, with no member of their own.
- `Space.getValue`, `getNumValues`, `Board.getLitSpace` and `Game.getPlayers` are plain accessor functions with no contract of their own.
- Printing, `toString`, console input, `learn`, the neural networks and the learners are left out: they produce output or train models, and do not decide the game.
- Games.JointWinnersExample and Games.RoundOneOrderExample: each fixes one set of players with three seats. The general statements are Games.Winners, Games.WinnersDescendBySeat and Games.OrderRound.
- NetInput.StateVector: its own contract states only the array's length. What each slot holds is stated by the `StateVector…` lemmas.
- Games.StartRound: built on the corrected `Games.Allocate`. With an empty turn order it gives nobody spins and goes on, where Game.java:66 throws (see Findings). It also takes the round's four draws as a parameter rather than drawing them.
- `Character.isDigit` and `Integer.parseInt` accept any Unicode decimal digit. JavaLang.IsDigit and JavaLang.ParseInt accept only the ASCII digits `0`-`9`.
- JavaLang.Grouped: `%,d` uses the default locale's grouping separator. The model always writes a comma, as in an English locale.
- Boards.MoveTargetsOfCorner: proved for boards with all four corners (more than 14 spaces). On smaller boards the source's fetch of a missing corner throws, which Boards.MoveTargets models as `None`.

## Findings

| source | as written | input that shows it | evidently intended | confidence | as-written member | corrected member |
|---|---|---|---|---|---|---|
| pyl/src/game/Board.java:155-156 | `(lightPos - moveAmt) % spaces.size()` uses Java's truncating `%`, so a backward move past space 0 gives a negative index and `spaces.get` throws | an 18-space board, light on space 1 showing `<2`: the index is -1 | the move wraps around the ring and lands on space 17 | not executed | Boards.GoBackTwoFromSpaceOne | Boards.MoveTargetsOfMovement |
| pyl/src/game/Space.java:148-157 | `getName` parses all but the last character before checking for an `S`/`L` suffix, so a one-digit bare amount parses the empty string and throws | the code `5` | the name "$5", as for longer bare amounts | not executed | Spaces.OneDigitNameThrows | Spaces.CodeNameTotal |
| pyl/src/game/Game.java:66 | `rng.nextInt(turnOrder.size())` runs with an empty order once every player has been eliminated, and throws before the game can end with "No-one won the game!" (Game.java:239-240) | every player reaches four whammies before the last board | nobody receives spins; the rounds pass with nobody to play, and the game ends with no winner | not executed | Games.EmptyOrderAllocationThrows | Games.Allocate |
