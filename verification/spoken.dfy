/**
 * Rendering of line numbers for the diagnostics: the decimal text of an
 * integer, and a list of integers as it would be written in English
 * ("5", "5 and 6", "5, 6, and 7").
 */
module Spoken {

  /** The character of a decimal digit. */
  function Digit(d: nat): (c: char)
    requires d < 10
    ensures '0' <= c <= '9'
  {
    ('0' as int + d) as char
  }

  predicate IsDigits(s: string)
  {
    forall i :: 0 <= i < |s| ==> '0' <= s[i] <= '9'
  }

  /** The decimal text of a natural number, most significant digit first. */
  function NatToString(n: nat): (s: string)
    ensures s != [] && IsDigits(s)
  {
    if n < 10 then [Digit(n)] else NatToString(n / 10) + [Digit(n % 10)]
  }

  /** The number a text of decimal digits denotes. */
  function DecimalValue(s: string): nat
    requires IsDigits(s)
  {
    if s == [] then 0
    else 10 * DecimalValue(s[..|s| - 1]) + (s[|s| - 1] as int - '0' as int)
  }

  /** Reading back the decimal text of `n` gives `n`. */
  lemma {:induction false} DecimalRoundTrip(n: nat)
    ensures DecimalValue(NatToString(n)) == n
  {
    if n >= 10 {
      DecimalRoundTrip(n / 10);
      var s := NatToString(n);
      assert s[..|s| - 1] == NatToString(n / 10);
    }
  }

  /** The decimal text of an integer, with a leading '-' when it is negative. */
  function IntToString(n: int): (s: string)
    ensures s != [] && ',' !in s && ' ' !in s
    ensures n >= 0 <==> IsDigits(s)
  {
    if n < 0 then
      var d := NatToString(-n);
      assert ',' !in d && ' ' !in d by {
        assert forall i :: 0 <= i < |d| ==> d[i] != ',' && d[i] != ' ';
      }
      assert ("-" + d)[0] == '-';
      "-" + d
    else
      var d := NatToString(n);
      assert ',' !in d && ' ' !in d by {
        assert forall i :: 0 <= i < |d| ==> d[i] != ',' && d[i] != ' ';
      }
      d
  }

  /** The items written out with ", " between each two neighbours. */
  function CommaList(xs: seq<int>): string
  {
    if |xs| == 0 then []
    else if |xs| == 1 then IntToString(xs[0])
    else CommaList(xs[..|xs| - 1]) + ", " + IntToString(xs[|xs| - 1])
  }

  /**
   * The English list: one item as itself, two joined by " and ", three or
   * more separated by ", " with ", and " before the last.
   */
  function Spoken(xs: seq<int>): string
  {
    if |xs| <= 1 then CommaList(xs)
    else if |xs| == 2 then IntToString(xs[0]) + " and " + IntToString(xs[1])
    else CommaList(xs[..|xs| - 1]) + ", and " + IntToString(xs[|xs| - 1])
  }

  /** spokenList: the item-by-item loop that writes into a buffer. */
  method SpokenList(list: seq<int>) returns (s: string)
    ensures s == Spoken(list)
  {
    var b := "";
    var n := |list|;
    var i := 0;
    while i < n
      invariant 0 <= i <= n
      invariant i == 0 ==> b == ""
      invariant 0 < i <= n - 2 ==> b == CommaList(list[..i]) + ", "
      invariant 0 < i == n - 1 ==> b == CommaList(list[..i]) + (if n == 2 then " and " else ", and ")
      invariant 0 < i == n ==> b == Spoken(list)
    {
      CommaListStep(list, i);
      if i == n - 1 {
        SpokenLast(list);
      }
      b := b + IntToString(list[i]);
      if i < n - 2 {
        b := b + ", ";
      } else if i < n - 1 {
        if n == 2 {
          b := b + " and ";
        } else {
          b := b + ", and ";
        }
      }
      i := i + 1;
    }
    s := b;
  }

  /** The comma list of one more item. */
  lemma CommaListStep(list: seq<int>, i: nat)
    requires i < |list|
    ensures CommaList(list[..i + 1]) ==
      if i == 0 then IntToString(list[0]) else CommaList(list[..i]) + ", " + IntToString(list[i])
  {
    assert list[..i + 1][..i] == list[..i];
  }

  /** The English list is everything before its last item, the last separator, and the last item. */
  lemma SpokenLast(list: seq<int>)
    requires |list| >= 1
    ensures var n := |list|;
      Spoken(list) == (if n == 1 then "" else CommaList(list[..n - 1]) + (if n == 2 then " and " else ", and "))
                      + IntToString(list[n - 1])
  {
    var n := |list|;
    if n == 2 {
      assert CommaList(list[..1]) == IntToString(list[0]);
    }
  }

  /** The number of commas in a text. */
  function Commas(s: string): nat
  {
    if s == [] then 0 else Commas(s[..|s| - 1]) + (if s[|s| - 1] == ',' then 1 else 0)
  }

  lemma {:induction false} CommasConcat(a: string, b: string)
    ensures Commas(a + b) == Commas(a) + Commas(b)
    decreases |b|
  {
    if b == [] {
      assert a + b == a;
    } else {
      assert (a + b)[..|a + b| - 1] == a + b[..|b| - 1];
      CommasConcat(a, b[..|b| - 1]);
    }
  }

  lemma {:induction false} NoCommas(s: string)
    requires ',' !in s
    ensures Commas(s) == 0
    decreases |s|
  {
    if s != [] {
      assert s[|s| - 1] in s;
      NoCommas(s[..|s| - 1]);
    }
  }

  lemma {:induction false} CommaListCommas(xs: seq<int>)
    requires |xs| >= 1
    ensures Commas(CommaList(xs)) == |xs| - 1
  {
    NoCommas(IntToString(xs[|xs| - 1]));
    if |xs| > 1 {
      CommaListCommas(xs[..|xs| - 1]);
      CommasConcat(CommaList(xs[..|xs| - 1]), ", ");
      CommasConcat(CommaList(xs[..|xs| - 1]) + ", ", IntToString(xs[|xs| - 1]));
      Separators();
    }
  }

  /** The separator texts and the commas they hold. */
  lemma Separators()
    ensures Commas(", ") == 1 && Commas(" and ") == 0 && Commas(", and ") == 1
  {
    assert ", "[..1] == ",";
    assert ", and "[..5] == ", and";
    assert ", and"[..4] == ", an";
    assert ", an"[..3] == ", a";
    assert ", a"[..2] == ", ";
    NoCommas(" and ");
  }

  /**
   * The separators: a list of three or more items carries one comma per gap
   * (n - 2 from ", " and one from ", and "); a shorter list carries none.
   */
  lemma {:induction false} SpokenCommas(xs: seq<int>)
    ensures Commas(Spoken(xs)) == if |xs| >= 3 then |xs| - 1 else 0
  {
    if |xs| == 0 {
    } else if |xs| == 1 {
      NoCommas(IntToString(xs[0]));
    } else if |xs| == 2 {
      var a, b := IntToString(xs[0]), IntToString(xs[1]);
      NoCommas(a);
      NoCommas(b);
      Separators();
      CommasConcat(a, " and ");
      CommasConcat(a + " and ", b);
    } else {
      var init, last := CommaList(xs[..|xs| - 1]), IntToString(xs[|xs| - 1]);
      CommaListCommas(xs[..|xs| - 1]);
      NoCommas(last);
      CommasConcat(init, ", and ");
      CommasConcat(init + ", and ", last);
      Separators();
    }
  }

  /** A one-digit number is written as its digit. */
  lemma OneDigit(n: nat)
    requires n < 10
    ensures IntToString(n) == [Digit(n)]
  {
  }

  /** The renderings the diagnostics rely on: one, two and three line numbers. */
  lemma SpokenExamples()
    ensures Spoken([]) == ""
    ensures Spoken([5]) == "5"
    ensures Spoken([5, 6]) == "5 and 6"
  {
    OneDigit(5);
    OneDigit(6);
  }

  lemma SpokenExampleThree()
    ensures Spoken([5, 6, 7]) == "5, 6, and 7"
  {
    OneDigit(5);
    OneDigit(6);
    OneDigit(7);
    var xs := [5, 6, 7];
    assert xs[..2] == [5, 6];
    assert [5, 6][..1] == [5];
    assert CommaList([5, 6]) == "5" + ", " + "6";
  }
}
