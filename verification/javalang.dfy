/** The pieces of the Java platform the game engine leans on, stated exactly:
    32-bit `int` arithmetic, the truncating `%`, `Random.nextInt` with the drawn
    value supplied by the caller, `Integer.parseInt`, `Integer.toString`,
    `String.split(",")`, `String.replace(char, char)`, the `%,d` format and the
    "first maximum wins" rule of `Stream.max`.  A Java call that would throw is
    modelled by `None`. */
module JavaLang {

  datatype Option<+T> = None | Some(value: T)

  const IntMin: int := -0x8000_0000
  const IntMax: int := 0x7fff_ffff
  const Modulus32: int := 0x1_0000_0000

  /** True when `x` is representable as a Java `int`. */
  predicate InInt(x: int) {
    IntMin <= x <= IntMax
  }

  /** Two's-complement wrap-around of an `int` expression. */
  function Wrap(x: int): (r: int)
    ensures InInt(r)
    ensures (x - r) % Modulus32 == 0
    ensures InInt(x) ==> r == x
  {
    (x - IntMin) % Modulus32 + IntMin
  }

  function Abs(x: int): (r: int)
    ensures r >= 0 && (r == x || r == -x)
  {
    if x < 0 then -x else x
  }

  /** Java's `a % b`, which truncates toward zero: the remainder takes the sign
      of the dividend (Dafny's own `%` never goes negative). */
  function Rem(a: int, b: int): (r: int)
    requires b != 0
    ensures a >= 0 ==> 0 <= r < Abs(b)
    ensures a < 0 ==> -Abs(b) < r <= 0
    ensures Abs(a) < Abs(b) ==> r == a
    ensures (a - r) % Abs(b) == 0
  {
    var m := Abs(b);
    if a >= 0 then
      assert a < m ==> a % m == a by { if a < m { ModOfSmall(a, m); } }
      ModDifference(a, m);
      a % m
    else
      assert -a < m ==> (-a) % m == -a by { if -a < m { ModOfSmall(-a, m); } }
      ModDifference(-a, m);
      -((-a) % m)
  }

  /** Taking away the remainder leaves a multiple of `m`, of either sign. */
  lemma ModDifference(x: int, m: int)
    requires m > 0
    ensures (x - x % m) % m == 0 && (-(x - x % m)) % m == 0
  {
    var q := x / m;
    assert x - x % m == q * m;
    MultipleMod(q, m);
    assert -(q * m) == (-q) * m;
    MultipleMod(-q, m);
  }

  /** A multiple of `m` leaves no remainder. */
  lemma MultipleMod(k: int, m: int)
    requires m > 0
    ensures (k * m) % m == 0
  {
    var q, r := (k * m) / m, (k * m) % m;
    var d := k - q;
    assert r == d * m by {
      assert k * m == q * m + r;
      assert d * m == k * m - q * m;
    }
  }

  lemma MulAtLeast(d: int, m: int)
    requires d >= 1 && m > 0
    ensures d * m >= m
  {
  }

  /** Euclidean division has one quotient and one remainder. */
  lemma ModUnique(a: int, m: int, q: int, r: int)
    requires m > 0 && 0 <= r < m && a == q * m + r
    ensures a % m == r
  {
    var q', r' := a / m, a % m;
    assert a == q' * m + r';
    assert (q - q') * m == r' - r;
    if q > q' {
      MulAtLeast(q - q', m);
    } else if q < q' {
      MulAtLeast(q' - q, m);
    }
  }

  lemma ModOfSmall(a: int, m: int)
    requires 0 <= a
    requires a < m
    ensures a % m == a
  {
  }

  /** A value a generator may return from `Random.nextInt(bound)`; any value
      will do when the bound is not positive, because then the call throws. */
  predicate DrawFits(bound: int, draw: int) {
    bound <= 0 || 0 <= draw < bound
  }

  /** `Random.nextInt(bound)` with the random draw passed in. */
  function NextInt(bound: int, draw: int): (r: Option<int>)
    requires DrawFits(bound, draw)
    ensures r.Some? <==> bound > 0
    ensures r.Some? ==> 0 <= r.value < bound && r.value == draw
  {
    if bound <= 0 then None else Some(draw)
  }

  // ----- decimal digits -----

  predicate IsDigit(c: char) {
    '0' <= c <= '9'
  }

  predicate AllDigits(s: string) {
    forall i :: 0 <= i < |s| ==> IsDigit(s[i])
  }

  function DigitValue(c: char): nat
    requires IsDigit(c)
  {
    (c as int) - ('0' as int)
  }

  function DigitChar(d: nat): (c: char)
    requires d < 10
    ensures IsDigit(c) && DigitValue(c) == d
  {
    (('0' as int) + d) as char
  }

  /** The number a string of decimal digits denotes (no bound). */
  function DecimalValue(s: string): nat
    requires AllDigits(s)
    decreases |s|
  {
    if |s| == 0 then 0 else DecimalValue(s[..|s| - 1]) * 10 + DigitValue(s[|s| - 1])
  }

  /** `Integer.parseInt(s)`: an optional sign, at least one digit, and a value
      that fits in an `int`; anything else throws.  Only ASCII digits are
      modelled. */
  function ParseInt(s: string): (r: Option<int>)
    ensures r.Some? ==> InInt(r.value)
    ensures r.Some? && |s| > 0 && IsDigit(s[0]) ==> r.value >= 0
  {
    if |s| == 0 then None
    else if s[0] == '-' || s[0] == '+' then
      var body := s[1..];
      if |body| == 0 || !AllDigits(body) then None
      else
        var v: int := if s[0] == '-' then -(DecimalValue(body) as int) else DecimalValue(body);
        if InInt(v) then Some(v) else None
    else if !AllDigits(s) then None
    else if InInt(DecimalValue(s)) then Some(DecimalValue(s))
    else None
  }

  /** Decimal rendering of a natural number, without leading zeros. */
  function NatToString(n: nat): (s: string)
    ensures |s| > 0 && AllDigits(s)
    decreases n
  {
    if n < 10 then [DigitChar(n)] else NatToString(n / 10) + [DigitChar(n % 10)]
  }

  /** `Integer.toString(n)`, also what `StringBuilder.append(int)` writes. */
  function IntToString(n: int): (s: string)
    ensures |s| > 0
    ensures n < 0 <==> s[0] == '-'
  {
    if n < 0 then "-" + NatToString(-n) else NatToString(n)
  }

  lemma {:induction false} DecimalOfNatToString(n: nat)
    ensures DecimalValue(NatToString(n)) == n
    decreases n
  {
    if n >= 10 {
      DecimalOfNatToString(n / 10);
      var s := NatToString(n);
      assert s[..|s| - 1] == NatToString(n / 10);
    }
  }

  /** Parsing undoes printing for every `int`. */
  lemma ParseIntToString(n: int)
    requires InInt(n)
    ensures ParseInt(IntToString(n)) == Some(n)
  {
    if n < 0 {
      var s := IntToString(n);
      assert s[1..] == NatToString(-n);
      DecimalOfNatToString(-n);
    } else {
      DecimalOfNatToString(n);
    }
  }

  // ----- the `%,d` format -----

  function Pad3(n: nat): (s: string)
    requires n < 1000
    ensures |s| == 3 && AllDigits(s)
  {
    [DigitChar(n / 100), DigitChar(n % 100 / 10), DigitChar(n % 100 % 10)]
  }

  /** A natural number with a comma between each group of three digits. */
  function GroupedNat(n: nat): string
    decreases n
  {
    if n < 1000 then NatToString(n) else GroupedNat(n / 1000) + "," + Pad3(n % 1000)
  }

  /** `String.format("%,d", n)` in a locale whose grouping separator is a comma. */
  function Grouped(n: int): string {
    if n < 0 then "-" + GroupedNat(-n) else GroupedNat(n)
  }

  function DropCommas(s: string): string
    decreases |s|
  {
    if |s| == 0 then ""
    else if s[|s| - 1] == ',' then DropCommas(s[..|s| - 1])
    else DropCommas(s[..|s| - 1]) + [s[|s| - 1]]
  }

  lemma {:induction false} DropCommasAppend(a: string, b: string)
    ensures DropCommas(a + b) == DropCommas(a) + DropCommas(b)
    decreases |b|
  {
    if |b| > 0 {
      var b' := b[..|b| - 1];
      assert (a + b)[..|a + b| - 1] == a + b';
      DropCommasAppend(a, b');
    } else {
      assert a + b == a;
    }
  }

  lemma {:induction false} DropCommasOfDigits(s: string)
    requires AllDigits(s)
    ensures DropCommas(s) == s
    decreases |s|
  {
    if |s| > 0 {
      DropCommasOfDigits(s[..|s| - 1]);
      assert s == s[..|s| - 1] + [s[|s| - 1]];
    }
  }

  lemma {:induction false} DecimalValueAppend3(a: string, b: string)
    requires AllDigits(a) && AllDigits(b) && |b| == 3
    ensures AllDigits(a + b)
    ensures DecimalValue(a + b) == DecimalValue(a) * 1000 + DecimalValue(b)
  {
    var s := a + b;
    var d0, d1, d2 := DigitValue(b[0]), DigitValue(b[1]), DigitValue(b[2]);
    assert s[..|s| - 1] == a + b[..2];
    assert (a + b[..2])[..|a| + 1] == a + b[..1];
    assert (a + b[..1])[..|a|] == a;
    assert DecimalValue(a + b[..1]) == DecimalValue(a) * 10 + d0;
    assert DecimalValue(a + b[..2]) == (DecimalValue(a) * 10 + d0) * 10 + d1;
    assert DecimalValue(s) == ((DecimalValue(a) * 10 + d0) * 10 + d1) * 10 + d2;
    assert b[..2][..1] == b[..1] && b[..1][..0] == "";
    assert DecimalValue(b[..1]) == d0;
    assert DecimalValue(b[..2]) == d0 * 10 + d1;
    assert b[..3] == b;
    assert DecimalValue(b) == (d0 * 10 + d1) * 10 + d2;
  }

  lemma Pad3Value(n: nat)
    requires n < 1000
    ensures DecimalValue(Pad3(n)) == n
  {
    var s := Pad3(n);
    var h, t, o := n / 100, n % 100 / 10, n % 100 % 10;
    assert DecimalValue(s) == (h * 10 + t) * 10 + o by {
      assert s[..2][..1] == s[..1] && s[..1][..0] == "";
      assert s[..3] == s;
      assert DecimalValue(s[..1]) == h;
      assert DecimalValue(s[..2]) == h * 10 + t;
    }
    assert n == h * 100 + n % 100;
    assert n % 100 == t * 10 + o;
  }

  /** Reading the digits of `%,d` back, with the separators removed, gives the
      number that was formatted. */
  lemma {:induction false} GroupedNatDigits(n: nat)
    ensures AllDigits(DropCommas(GroupedNat(n)))
    ensures DecimalValue(DropCommas(GroupedNat(n))) == n
    decreases n
  {
    if n < 1000 {
      DropCommasOfDigits(NatToString(n));
      DecimalOfNatToString(n);
    } else {
      var hi := GroupedNat(n / 1000);
      var lo := Pad3(n % 1000);
      GroupedNatDigits(n / 1000);
      DropCommasAppend(hi + ",", lo);
      DropCommasAppend(hi, ",");
      DropCommasOfDigits(lo);
      assert DropCommas(",") == "";
      DecimalValueAppend3(DropCommas(hi), lo);
      Pad3Value(n % 1000);
    }
  }

  // ----- String.split(",") and String.replace -----

  /** All comma-separated fields of `s`, empty ones included. */
  function Fields(s: string): (r: seq<string>)
    ensures |r| >= 1
    ensures forall f :: f in r ==> ',' !in f
    decreases |s|
  {
    if |s| == 0 then [""]
    else
      var rest := Fields(s[1..]);
      if s[0] == ',' then [""] + rest
      else
        assert ',' !in [s[0]] + rest[0] by { assert rest[0] in rest; }
        assert forall f :: f in rest[1..] ==> f in rest;
        [[s[0]] + rest[0]] + rest[1..]
  }

  /** `String.join(",", fs)`. */
  function Join(fs: seq<string>): string
    decreases |fs|
  {
    if |fs| == 0 then ""
    else if |fs| == 1 then fs[0]
    else fs[0] + "," + Join(fs[1..])
  }

  /** Joining the fields with commas restores the line. */
  lemma {:induction false} JoinFields(s: string)
    ensures Join(Fields(s)) == s
    decreases |s|
  {
    if |s| > 0 {
      var rest := Fields(s[1..]);
      JoinFields(s[1..]);
      if s[0] == ',' {
        assert Fields(s) == [""] + rest;
        assert ([""] + rest)[1..] == rest;
        assert Join(Fields(s)) == "" + "," + Join(rest);
        assert s == [','] + s[1..];
      } else {
        var f := [[s[0]] + rest[0]] + rest[1..];
        assert f[1..] == rest[1..];
        if |rest| == 1 {
          assert Join(f) == [s[0]] + rest[0];
        } else {
          assert Join(f) == [s[0]] + rest[0] + "," + Join(rest[1..]);
          assert Join(rest) == rest[0] + "," + Join(rest[1..]);
        }
        assert s == [s[0]] + s[1..];
      }
    }
  }

  /** A character absent from the line is absent from every field of it. */
  lemma {:induction false} FieldsAvoid(s: string, c: char)
    requires c !in s
    ensures forall f :: f in Fields(s) ==> c !in f
    decreases |s|
  {
    if |s| > 0 {
      assert c !in s[1..] by {
        forall i | 0 <= i < |s[1..]| ensures s[1..][i] != c {
          assert s[1..][i] == s[i + 1];
        }
      }
      FieldsAvoid(s[1..], c);
      var rest := Fields(s[1..]);
      assert c !in rest[0];
      forall f | f in rest[1..] ensures c !in f {
        assert f in rest;
      }
    }
  }

  function DropTrailingEmpty(fs: seq<string>): (r: seq<string>)
    ensures |r| <= |fs| && r == fs[..|r|]
    ensures |r| > 0 ==> r[|r| - 1] != ""
    ensures forall i :: |r| <= i < |fs| ==> fs[i] == ""
    decreases |fs|
  {
    if |fs| > 0 && fs[|fs| - 1] == "" then DropTrailingEmpty(fs[..|fs| - 1]) else fs
  }

  /** `s.split(",")`: a line without a comma is returned whole (even when it is
      empty); otherwise the fields, with trailing empty fields removed. */
  function Split(s: string): (r: seq<string>)
    ensures ',' !in s ==> r == [s]
    ensures ',' in s ==> |r| <= |Fields(s)| && r == Fields(s)[..|r|]
    ensures ',' in s && |r| > 0 ==> r[|r| - 1] != ""
    ensures ',' in s ==> forall i :: |r| <= i < |Fields(s)| ==> Fields(s)[i] == ""
    ensures forall i :: 0 <= i < |r| ==> ',' !in r[i]
  {
    if ',' in s then DropTrailingEmpty(Fields(s)) else [s]
  }

  lemma SplitAvoids(s: string, c: char)
    requires c !in s
    ensures forall f :: f in Split(s) ==> c !in f
  {
    if ',' in s {
      FieldsAvoid(s, c);
      var r := Split(s);
      forall f | f in r ensures c !in f {
        assert f in Fields(s);
      }
    }
  }

  /** `s.replace(from, to)` on characters. */
  function Replace(s: string, from: char, to: char): (r: string)
    ensures |r| == |s|
    ensures from != to ==> from !in r
    ensures forall i :: 0 <= i < |s| && s[i] != from ==> r[i] == s[i]
    ensures forall i :: 0 <= i < |s| && s[i] == from ==> r[i] == to
    decreases |s|
  {
    if |s| == 0 then ""
    else [if s[0] == from then to else s[0]] + Replace(s[1..], from, to)
  }

  // ----- Stream.max -----

  /** The position `Stream.max` picks: the greatest value, the first one among
      equals, since the reduction keeps its left operand on ties. */
  function FirstArgMax(xs: seq<int>): (k: nat)
    requires |xs| > 0
    ensures k < |xs|
    ensures forall j :: 0 <= j < |xs| ==> xs[j] <= xs[k]
    ensures forall j :: 0 <= j < k ==> xs[j] < xs[k]
    decreases |xs|
  {
    if |xs| == 1 then 0
    else
      var k := FirstArgMax(xs[..|xs| - 1]);
      if xs[|xs| - 1] > xs[k] then |xs| - 1 else k
  }
}
