/** Names, their order, and decimal numerals. A `char` stands for one byte of the UTF-8 text. */
module Text {

  datatype Option<+T> = None | Some(value: T)

  // ----- byte-wise order of names -----

  predicate LexLe(a: string, b: string) {
    a == [] || (b != [] && (a[0] < b[0] || (a[0] == b[0] && LexLe(a[1..], b[1..]))))
  }

  lemma LexTotal(a: string, b: string)
    ensures LexLe(a, b) || LexLe(b, a)
  {}

  lemma LexAntisymmetric(a: string, b: string)
    requires LexLe(a, b) && LexLe(b, a)
    ensures a == b
  {}

  lemma LexTransitive(a: string, b: string, c: string)
    requires LexLe(a, b) && LexLe(b, c)
    ensures LexLe(a, c)
  {}

  // ----- sorted listings -----

  ghost predicate StrictlySorted(xs: seq<string>) {
    forall i, j | 0 <= i < j < |xs| :: LexLe(xs[i], xs[j]) && xs[i] != xs[j]
  }

  ghost predicate Rising(indices: seq<nat>) {
    forall i, j | 0 <= i < j < |indices| :: indices[i] < indices[j]
  }

  predicate IsLeast(x: string, s: set<string>) {
    x in s && forall y | y in s :: LexLe(x, y)
  }

  lemma LeastExists(s: set<string>)
    requires s != {}
    ensures exists x :: IsLeast(x, s)
  {
    var x :| x in s;
    LexTotal(x, x);
    if s == {x} {
      assert IsLeast(x, s);
    } else {
      LeastExists(s - {x});
      var rest :| IsLeast(rest, s - {x});
      LexTotal(x, rest);
      var least := if LexLe(x, rest) then x else rest;
      forall y | y in s
        ensures LexLe(least, y)
      {
        if y != x {
          LexTransitive(least, rest, y);
        }
      }
      assert IsLeast(least, s);
    }
  }

  lemma LeastIsUnique(x: string, y: string, s: set<string>)
    requires IsLeast(x, s) && IsLeast(y, s)
    ensures x == y
  {
    LexAntisymmetric(x, y);
  }

  function Least(s: set<string>): (least: string)
    requires s != {}
    ensures IsLeast(least, s)
  {
    LeastExists(s);
    assert forall x, y | IsLeast(x, s) && IsLeast(y, s) :: x == y by {
      forall x, y | IsLeast(x, s) && IsLeast(y, s)
        ensures x == y
      {
        LeastIsUnique(x, y, s);
      }
    }
    var x :| x in s && IsLeast(x, s);
    x
  }

  /** The names of a set in ascending order, each once. */
  function Sorted(s: set<string>): (xs: seq<string>)
    ensures StrictlySorted(xs)
    ensures forall x :: x in xs <==> x in s
    decreases |s|
  {
    if s == {} then []
    else
      var x := Least(s);
      var rest := Sorted(s - {x});
      assert forall i | 0 <= i < |rest| :: rest[i] in rest;
      [x] + rest
  }

  lemma {:induction false} SortedIsUnique(xs: seq<string>, ys: seq<string>)
    requires StrictlySorted(xs) && StrictlySorted(ys)
    requires forall x :: x in xs <==> x in ys
    ensures xs == ys
  {
    assert ys != [] ==> ys[0] in ys;
    if xs != [] {
      assert xs[0] in ys;
      var i :| 0 <= i < |ys| && ys[i] == xs[0];
      assert ys[0] in xs;
      var j :| 0 <= j < |xs| && xs[j] == ys[0];
      if i != 0 && j != 0 {
        LexAntisymmetric(xs[0], ys[0]);
      }
      assert xs[0] == ys[0];
      forall x
        ensures x in xs[1..] <==> x in ys[1..]
      {
        if x in xs[1..] {
          assert x in ys && x != xs[0];
        }
        if x in ys[1..] {
          assert x in xs && x != ys[0];
        }
      }
      SortedIsUnique(xs[1..], ys[1..]);
      assert xs == [xs[0]] + xs[1..] && ys == [ys[0]] + ys[1..];
    }
  }

  // ----- splitting and joining -----

  /** `str::split` at one character; never empty. */
  function Split(s: string, c: char): (parts: seq<string>)
    ensures parts != []
    decreases |s|
  {
    if c !in s then [s]
    else
      var (left, right) := CutAt(s, c);
      [left] + Split(right, c)
  }

  /** `str::split_once` where the character occurs. */
  function CutAt(s: string, c: char): (cut: (string, string))
    requires c in s
    ensures s == cut.0 + [c] + cut.1 && c !in cut.0 && |cut.1| < |s|
  {
    if s[0] == c then ("", s[1..])
    else
      var (left, right) := CutAt(s[1..], c);
      ([s[0]] + left, right)
  }

  function SplitOnce(s: string, c: char): Option<(string, string)> {
    if c in s then Some(CutAt(s, c)) else None
  }

  function Join(parts: seq<string>, c: char): string
    requires parts != []
  {
    if |parts| == 1 then parts[0] else parts[0] + [c] + Join(parts[1..], c)
  }

  lemma {:induction false} SplitJoin(parts: seq<string>, c: char)
    requires parts != [] && forall i | 0 <= i < |parts| :: c !in parts[i]
    ensures Split(Join(parts, c), c) == parts
  {
    if |parts| > 1 {
      var rest := Join(parts[1..], c);
      CutJoined(parts[0], rest, c);
      SplitJoin(parts[1..], c);
      assert Join(parts, c)[|parts[0]|] == c;
      assert parts == [parts[0]] + parts[1..];
    }
  }

  lemma {:induction false} CutJoined(left: string, right: string, c: char)
    requires c !in left
    ensures c in left + [c] + right && CutAt(left + [c] + right, c) == (left, right)
  {
    var s := left + [c] + right;
    if left == "" {
      assert s == [c] + right;
    } else {
      assert s[1..] == left[1..] + [c] + right;
      CutJoined(left[1..], right, c);
      assert s[0] == left[0] && left[0] != c;
      assert left == [left[0]] + left[1..];
    }
  }

  // ----- decimal numerals -----

  predicate IsDigit(c: char) {
    '0' <= c <= '9'
  }

  predicate AllDigits(s: string) {
    forall i | 0 <= i < |s| :: IsDigit(s[i])
  }

  function DigitChar(d: nat): (c: char)
    requires d < 10
    ensures IsDigit(c) && DigitValue(c) == d
  {
    '0' + d as char
  }

  function DigitValue(c: char): (d: nat)
    requires IsDigit(c)
    ensures d < 10
  {
    c as int - '0' as int
  }

  /** The value of a string of digits, leading zeros allowed. */
  function NumeralValue(s: string): nat
    requires AllDigits(s)
  {
    if s == [] then 0 else 10 * NumeralValue(s[..|s| - 1]) + DigitValue(s[|s| - 1])
  }

  /** The shortest decimal numeral of `n`, as the formatting machinery prints it. */
  function Decimal(n: nat): (s: string)
    ensures s != [] && AllDigits(s)
    ensures NumeralValue(s) == n
  {
    if n < 10 then
      assert NumeralValue([DigitChar(n)]) == n by {
        assert [DigitChar(n)][..0] == [];
      }
      [DigitChar(n)]
    else
      var front := Decimal(n / 10);
      var s := front + [DigitChar(n % 10)];
      assert s[..|s| - 1] == front;
      s
  }

  lemma DecimalInjective(m: nat, n: nat)
    requires Decimal(m) == Decimal(n)
    ensures m == n
  {}

  /** Splitting at the first dash is unambiguous when the left parts hold none. */
  lemma DashSplit(a: string, b: string, c: string, d: string)
    requires a + "-" + b == c + "-" + d
    requires AllDigits(a) && AllDigits(c)
    ensures a == c && b == d
  {
    var s := a + "-" + b;
    assert s[|a|] == '-';
    assert s[|c|] == (c + "-" + d)[|c|] == '-';
    assert |a| < |c| ==> s[|a|] == c[|a|] && IsDigit(c[|a|]);
    assert |c| < |a| ==> s[|c|] == a[|c|] && IsDigit(a[|c|]);
    assert s[..|a|] == a && (c + "-" + d)[..|c|] == c;
    assert s[|a| + 1..] == b && (c + "-" + d)[|c| + 1..] == d;
  }
}
