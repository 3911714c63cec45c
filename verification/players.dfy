/** A contestant's counters and the order players are sorted and compared in. */
module Players {

  /** A player: number (1-based seat), score, earned and passed spins, and
      whammies.  The setters of the source are datatype updates here, e.g.
      `p.(score := v)`, which change that one field and nothing else. */
  datatype Player = Player(num: int, score: int, earned: int, passed: int, whammies: int)

  /** A newly constructed player. */
  function NewPlayer(): (p: Player)
    ensures p.num == 1 && p.score == 0 && p.whammies == 0
    ensures p.earned == 0 && p.passed == 0
  {
    Player(1, 0, 0, 0, 0)
  }

  /** The player still has spins to take.  `hasSpins` is not part of the
      player class shown; this is the meaning the game's turn protocol gives
      it: earned or passed spins are pending. */
  predicate HasSpins(p: Player) {
    p.earned > 0 || p.passed > 0
  }

  /** Earned plus passed spins. */
  function Spins(p: Player): int {
    p.earned + p.passed
  }

  /** Lexicographic order on (score, player number). */
  predicate Before(a: Player, b: Player) {
    a.score < b.score || (a.score == b.score && a.num < b.num)
  }

  /** `equals`: same score and same player number. */
  predicate Equals(a: Player, b: Player) {
    a.score == b.score && a.num == b.num
  }

  /** `compareTo`: -1, 0 or 1 as `a` comes before, together with, or after `b`
      in the (score, player number) order. */
  function Compare(a: Player, b: Player): (r: int)
    ensures -1 <= r <= 1
    ensures r < 0 <==> Before(a, b)
    ensures r > 0 <==> Before(b, a)
    ensures r == 0 <==> Equals(a, b)
  {
    if a.score == b.score then
      if a.num == b.num then 0 else if a.num < b.num then -1 else 1
    else if a.score < b.score then -1
    else 1
  }

  lemma CompareAntisymmetric(a: Player, b: Player)
    ensures Compare(a, b) == -Compare(b, a)
  {
  }

  lemma CompareTransitive(a: Player, b: Player, c: Player)
    ensures Compare(a, b) < 0 && Compare(b, c) < 0 ==> Compare(a, c) < 0
    ensures Compare(a, b) <= 0 && Compare(b, c) <= 0 ==> Compare(a, c) <= 0
  {
  }

  /** `equals` looks only at score and player number: spins and whammies do
      not matter. */
  lemma EqualsIgnoresCounters(a: Player, b: Player, earned: int, passed: int, whammies: int)
    ensures Equals(a, b) <==> Equals(a, b.(earned := earned, passed := passed, whammies := whammies))
    ensures Compare(a, b) == Compare(a, b.(earned := earned, passed := passed, whammies := whammies))
  {
  }
}
