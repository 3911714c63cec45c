/** One cell of the Press Your Luck board and the "space notation" its outcome
    codes are written in:
      a bare number   cash
      number + S      cash plus one spin
      number + L      cash or lose one whammy
      W P D A B C     Whammy, Prize, Double Your $$ + 1 Spin, Add-a-One,
                      Big Bucks, Pick-a-Corner
      M n, < n, > n   move, go back, advance n spaces */
module Spaces {
  import opened JavaLang

  /** A space: its outcome codes and the index of the code currently shown. */
  datatype Space = Space(values: seq<string>, pos: int)

  /** The shown index points into the code list.  Nothing in `Space` enforces
      this (`setPos` takes any index); the callers keep it. */
  predicate Valid(s: Space) {
    0 <= s.pos < |s.values|
  }

  /** A space as constructed: the first code is shown. */
  function NewSpace(values: seq<string>): Space {
    Space(values, 0)
  }

  /** The code currently shown. */
  function GetValue(s: Space): string
    requires Valid(s)
  {
    s.values[s.pos]
  }

  function NumValues(s: Space): nat {
    |s.values|
  }

  /** Overwrites the shown code in place; the index and every other code stay. */
  function SetCurrentValue(s: Space, v: string): (r: Space)
    requires Valid(s)
    ensures Valid(r) && r.pos == s.pos && NumValues(r) == NumValues(s)
    ensures GetValue(r) == v
    ensures forall i :: 0 <= i < |s.values| && i != s.pos ==> r.values[i] == s.values[i]
  {
    s.(values := s.values[s.pos := v])
  }

  /** Shows the code at a freshly drawn index; a space without codes makes
      `nextInt(0)` throw. */
  function RandomizeValue(s: Space, draw: int): (r: Option<Space>)
    requires DrawFits(NumValues(s), draw)
    ensures r.Some? <==> NumValues(s) > 0
    ensures r.Some? ==> Valid(r.value) && r.value.values == s.values
    ensures r.Some? ==> GetValue(r.value) == s.values[draw]
  {
    match NextInt(NumValues(s), draw)
    case None => None
    case Some(p) => Some(s.(pos := p))
  }

  /** Moves the shown index without any bounds check. */
  function SetPos(s: Space, p: int): (r: Space)
    ensures r.values == s.values && r.pos == p
    ensures Valid(r) <==> 0 <= p < NumValues(s)
  {
    s.(pos := p)
  }

  lemma SetPosThenGetValue(s: Space, p: int)
    requires 0 <= p < NumValues(s)
    ensures GetValue(SetPos(s, p)) == s.values[p]
    ensures NumValues(SetPos(s, p)) == NumValues(s)
  {
  }

  // ----- the notation -----

  const LetterCodes: set<string> := {"W", "P", "D", "A", "B", "C"}

  /** A non-empty run of digits whose value fits in an `int`. */
  predicate IsAmount(s: string) {
    |s| > 0 && AllDigits(s) && DecimalValue(s) <= IntMax
  }

  predicate IsMoveChar(c: char) {
    c == 'M' || c == '<' || c == '>'
  }

  predicate IsCashSuffix(c: char) {
    c == 'S' || c == 'L'
  }

  /** The codes the notation defines. */
  predicate WellFormedCode(c: string) {
    || c in LetterCodes
    || IsAmount(c)
    || (|c| >= 2 && IsCashSuffix(c[|c| - 1]) && IsAmount(c[..|c| - 1]))
    || (|c| >= 2 && IsMoveChar(c[0]) && IsAmount(c[1..]))
  }

  /** `getCashAmount` on a code: the number in front of an `S`/`L` suffix or the
      whole number, 0 for a code that does not start with a digit; a code that
      starts with a digit but is not a number throws. */
  function CashAmount(c: string): (r: Option<int>)
    ensures |c| > 0 && !IsDigit(c[0]) ==> r == Some(0)
    ensures r.Some? ==> r.value >= 0
  {
    if |c| == 0 then None
    else if !IsDigit(c[0]) then Some(0)
    else if !IsDigit(c[|c| - 1]) then ParseInt(c[..|c| - 1])
    else ParseInt(c)
  }

  function GetCashAmount(s: Space): Option<int>
    requires Valid(s)
  {
    CashAmount(GetValue(s))
  }

  lemma ParseAmount(s: string)
    requires IsAmount(s)
    ensures ParseInt(s) == Some(DecimalValue(s) as int)
  {
  }

  /** Reading the amount back from the codes written for it: `n`, `nS`, `nL`. */
  lemma CashAmountOfCashCodes(n: nat)
    requires n <= IntMax
    ensures CashAmount(NatToString(n)) == Some(n)
    ensures CashAmount(NatToString(n) + "S") == Some(n)
    ensures CashAmount(NatToString(n) + "L") == Some(n)
  {
    var d := NatToString(n);
    DecimalOfNatToString(n);
    assert (d + "S")[..|d + "S"| - 1] == d;
    assert (d + "L")[..|d + "L"| - 1] == d;
    assert (d + "S")[0] == d[0] && (d + "L")[0] == d[0];
  }

  /** Every code of the notation has a cash amount: its number for the cash
      codes and 0 for the rest. */
  lemma CashAmountWellFormed(c: string)
    requires WellFormedCode(c)
    ensures CashAmount(c).Some?
    ensures IsAmount(c) ==> CashAmount(c) == Some(DecimalValue(c) as int)
    ensures |c| >= 2 && IsCashSuffix(c[|c| - 1]) && IsAmount(c[..|c| - 1]) ==>
              CashAmount(c) == Some(DecimalValue(c[..|c| - 1]) as int)
    ensures c in LetterCodes || (|c| >= 2 && IsMoveChar(c[0])) ==> CashAmount(c) == Some(0)
  {
    if c in LetterCodes {
      assert c[0] in "WPDABC";
    } else if IsAmount(c) {
      ParseAmount(c);
    } else if |c| >= 2 && IsCashSuffix(c[|c| - 1]) && IsAmount(c[..|c| - 1]) {
      assert c[0] == c[..|c| - 1][0];
      ParseAmount(c[..|c| - 1]);
    }
  }

  // ----- display names -----

  function MoveLabel(first: char): string {
    if first == 'M' then "Move " else if first == '<' then "Go Back " else "Advance "
  }

  /** The label of a code fixed by its first character, if it is one of those. */
  function LetterName(first: char): Option<string> {
    if first == 'W' then Some("Whammy")
    else if first == 'P' then Some("Prize")
    else if first == 'D' then Some("Double Your $$ + 1 Spin")
    else if first == 'A' then Some("Add-a-One")
    else if first == 'B' then Some("Big Bucks")
    else if first == 'C' then Some("Pick-a-Corner")
    else None
  }

  function MoveName(c: string): Option<string>
    requires |c| > 0
  {
    match ParseInt(c[1..])
    case None => None
    case Some(n) => Some(MoveLabel(c[0]) + IntToString(n) + (if n == 1 then " Space" else " Spaces"))
  }

  function DollarName(v: int, suffix: string): string {
    "$" + Grouped(v) + suffix
  }

  /** `getName` as written: the cash branch parses everything but the last
      character before it looks at that character, so a one-digit bare
      amount such as "5" parses the empty string and throws. */
  function CodeNameAsWritten(c: string): Option<string> {
    if |c| == 0 then None
    else if LetterName(c[0]).Some? then LetterName(c[0])
    else if IsMoveChar(c[0]) then MoveName(c)
    else
      var last := c[|c| - 1];
      match ParseInt(c[..|c| - 1])
      case None => None
      case Some(amt) =>
        if last == 'S' then Some(DollarName(amt, " + One Spin"))
        else if last == 'L' then Some(DollarName(amt, " or Lose-1-Whammy"))
        else match ParseInt(c)
          case None => None
          case Some(v) => Some(DollarName(v, ""))
  }

  /** `getName` with the suffix examined before anything is parsed: only an
      `S`/`L` code drops its last character. */
  function CodeName(c: string): Option<string> {
    if |c| == 0 then None
    else if LetterName(c[0]).Some? then LetterName(c[0])
    else if IsMoveChar(c[0]) then MoveName(c)
    else
      var last := c[|c| - 1];
      if last == 'S' || last == 'L' then
        match ParseInt(c[..|c| - 1])
        case None => None
        case Some(amt) =>
          Some(DollarName(amt, if last == 'S' then " + One Spin" else " or Lose-1-Whammy"))
      else
        match ParseInt(c)
        case None => None
        case Some(v) => Some(DollarName(v, ""))
  }

  function GetName(s: Space): Option<string>
    requires Valid(s)
  {
    CodeName(GetValue(s))
  }

  /** The six one-letter codes are named by their first character alone. */
  lemma LetterCodeNames(c: string)
    requires |c| > 0
    ensures c[0] == 'W' ==> CodeName(c) == Some("Whammy")
    ensures c[0] == 'P' ==> CodeName(c) == Some("Prize")
    ensures c[0] == 'D' ==> CodeName(c) == Some("Double Your $$ + 1 Spin")
    ensures c[0] == 'A' ==> CodeName(c) == Some("Add-a-One")
    ensures c[0] == 'B' ==> CodeName(c) == Some("Big Bucks")
    ensures c[0] == 'C' ==> CodeName(c) == Some("Pick-a-Corner")
  {
  }

  /** A movement code is named "Move/Go Back/Advance n Space(s)" with the word
      "Space" in the singular exactly when n is 1. */
  lemma MoveCodeName(c: string, n: int)
    requires |c| >= 2 && IsMoveChar(c[0]) && ParseInt(c[1..]) == Some(n)
    ensures CodeName(c) == Some(MoveLabel(c[0]) + IntToString(n) + (if n == 1 then " Space" else " Spaces"))
    ensures var name := CodeName(c).value;
      && |name| > |MoveLabel(c[0])|
      && name[..|MoveLabel(c[0])|] == MoveLabel(c[0])
      && (name[|name| - 1] == 's' <==> n != 1)
  {
  }

  lemma BareCashName(n: nat)
    requires n <= IntMax
    ensures CodeName(NatToString(n)) == Some("$" + GroupedNat(n))
  {
    var d := NatToString(n);
    ParseIntToString(n);
    assert IsDigit(d[0]) && IsDigit(d[|d| - 1]);
    assert DollarName(n, "") == "$" + GroupedNat(n);
  }

  lemma SuffixedCashName(n: nat, suffix: char)
    requires n <= IntMax && IsCashSuffix(suffix)
    ensures var c := NatToString(n) + [suffix];
      CodeName(c) == Some(DollarName(n, if suffix == 'S' then " + One Spin" else " or Lose-1-Whammy"))
  {
    var d := NatToString(n);
    var c := d + [suffix];
    ParseIntToString(n);
    assert c[..|c| - 1] == d;
    assert c[0] == d[0] && IsDigit(d[0]);
  }

  /** A cash code is named by its amount, grouped in threes, after a dollar
      sign, with the suffix's wording; the digits of the name read back as the
      amount. */
  lemma CashCodeName(n: nat)
    requires n <= IntMax
    ensures CodeName(NatToString(n)) == Some("$" + GroupedNat(n))
    ensures CodeName(NatToString(n) + "S") == Some("$" + GroupedNat(n) + " + One Spin")
    ensures CodeName(NatToString(n) + "L") == Some("$" + GroupedNat(n) + " or Lose-1-Whammy")
    ensures AllDigits(DropCommas(GroupedNat(n))) && DecimalValue(DropCommas(GroupedNat(n))) == n
    ensures n >= 10 ==> CodeNameAsWritten(NatToString(n)) == Some("$" + GroupedNat(n))
    ensures CodeNameAsWritten(NatToString(n) + "S") == Some("$" + GroupedNat(n) + " + One Spin")
    ensures CodeNameAsWritten(NatToString(n) + "L") == Some("$" + GroupedNat(n) + " or Lose-1-Whammy")
  {
    BareCashName(n);
    SuffixedCashName(n, 'S');
    SuffixedCashName(n, 'L');
    GroupedNatDigits(n);
    var d := NatToString(n);
    DecimalOfNatToString(n);
    assert IsAmount(d);
    if n >= 10 {
      CodeNameAgreesAsWritten(d);
    }
    assert (d + "S")[..|d|] == d && (d + "L")[..|d|] == d;
    CodeNameAgreesAsWritten(d + "S");
    CodeNameAgreesAsWritten(d + "L");
  }

  /** Every code of the notation has a name. */
  lemma CodeNameTotal(c: string)
    requires WellFormedCode(c)
    ensures CodeName(c).Some?
  {
    if c in LetterCodes {
      assert c[0] in "WPDABC";
    } else if IsAmount(c) {
      ParseAmount(c);
      assert c[0] !in "WPDABCM<>" && c[|c| - 1] !in "SL";
    } else if |c| >= 2 && IsCashSuffix(c[|c| - 1]) && IsAmount(c[..|c| - 1]) {
      ParseAmount(c[..|c| - 1]);
      assert c[0] == c[..|c| - 1][0];
    } else {
      ParseAmount(c[1..]);
    }
  }

  /** On every code of two or more characters the naming as written and the
      corrected naming agree: the two differ only on one-digit amounts. */
  lemma CodeNameAgreesAsWritten(c: string)
    requires WellFormedCode(c) && |c| >= 2
    ensures CodeNameAsWritten(c) == CodeName(c)
  {
  }

  /** The one-digit amount "5" is a code of the notation, yet `getName` as
      written throws on it, where the corrected reading names it "$5". */
  lemma OneDigitNameThrows()
    ensures WellFormedCode("5") && CashAmount("5") == Some(5)
    ensures CodeNameAsWritten("5") == None
    ensures CodeName("5") == Some("$5")
  {
    assert "5"[..0] == "";
    assert DecimalValue("5") == 5;
    assert DigitChar(5) == '5';
    assert NatToString(5) == "5";
    assert GroupedNat(5) == "5";
    assert DollarName(5, "") == "$5";
  }
}
