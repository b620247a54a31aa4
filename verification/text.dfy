/** String helpers used by rendering: `", ".join`, its inverse split on the
    same separator, the first occurrence of a character, and the decimal
    digits of a natural number (Python's `str(n)` for `n >= 0`). */
module Text {
  import opened Basics

  /** True iff the separator ", " starts at position `i` of `s`. */
  predicate SepAt(s: string, i: int) {
    0 <= i && i + 2 <= |s| && s[i] == ',' && s[i + 1] == ' '
  }

  predicate ContainsSep(s: string) {
    exists i :: 0 <= i < |s| && SepAt(s, i)
  }

  /** `", ".join(xs)`. */
  function Join(xs: seq<string>): string {
    if |xs| == 0 then ""
    else if |xs| == 1 then xs[0]
    else xs[0] + ", " + Join(xs[1..])
  }

  /** Position of the first ", " in `s`, if any. */
  function IndexOfSep(s: string): (r: Option<nat>)
    ensures r.Some? ==> SepAt(s, r.value) && forall i :: 0 <= i < r.value ==> !SepAt(s, i)
    ensures r.None? ==> !ContainsSep(s)
    decreases |s|
  {
    if |s| < 2 then None
    else if s[0] == ',' && s[1] == ' ' then Some(0)
    else
      match IndexOfSep(s[1..])
      case None =>
        assert forall i | SepAt(s, i) :: SepAt(s[1..], i - 1);
        None
      case Some(k) =>
        assert forall i | 1 <= i <= k :: SepAt(s, i) ==> SepAt(s[1..], i - 1);
        Some(k + 1)
  }

  /** Splits `s` at every ", " (scanning left to right); never empty. */
  function SplitOn(s: string): (r: seq<string>)
    ensures |r| >= 1
    decreases |s|
  {
    match IndexOfSep(s)
    case None => [s]
    case Some(k) => [s[..k]] + SplitOn(s[k + 2..])
  }

  /** `s.split(", ")`, except that the empty string splits into no pieces. */
  function Split(s: string): seq<string> {
    if s == "" then [] else SplitOn(s)
  }

  /** A piece free of the separator is found first in front of it. */
  lemma {:induction false} IndexOfSepAfter(a: string, b: string)
    requires !ContainsSep(a)
    ensures IndexOfSep(a + ", " + b) == Some(|a|)
  {
    var s := a + ", " + b;
    assert SepAt(s, |a|);
    forall i | 0 <= i < |a|
      ensures !SepAt(s, i)
    {
      if i + 1 < |a| {
        if SepAt(s, i) {
          assert SepAt(a, i);
        }
      } else {
        assert s[i + 1] == ',';
      }
    }
  }

  /** Splitting undoes joining when no piece is empty or holds the separator. */
  lemma {:induction false} SplitJoin(xs: seq<string>)
    requires forall i :: 0 <= i < |xs| ==> xs[i] != "" && !ContainsSep(xs[i])
    ensures Split(Join(xs)) == xs
  {
    if |xs| == 0 {
    } else {
      SplitOnJoin(xs);
      assert Join(xs)[..|xs[0]|] == xs[0] by {
        if |xs| > 1 {
          assert Join(xs) == xs[0] + (", " + Join(xs[1..]));
        }
      }
    }
  }

  lemma {:induction false} SplitOnJoin(xs: seq<string>)
    requires |xs| >= 1
    requires forall i :: 0 <= i < |xs| ==> !ContainsSep(xs[i])
    ensures SplitOn(Join(xs)) == xs
    decreases |xs|
  {
    if |xs| == 1 {
    } else {
      var s := Join(xs);
      assert s == xs[0] + ", " + Join(xs[1..]);
      IndexOfSepAfter(xs[0], Join(xs[1..]));
      assert s[..|xs[0]|] == xs[0];
      assert s[|xs[0]| + 2..] == Join(xs[1..]);
      SplitOnJoin(xs[1..]);
      assert xs == [xs[0]] + xs[1..];
    }
  }

  /** Concatenating separator-free strings around a character other than
      ',' and ' ' cannot create a separator. */
  lemma NoSepAround(a: string, ch: char, b: string)
    requires !ContainsSep(a) && !ContainsSep(b)
    requires ch != ',' && ch != ' '
    ensures !ContainsSep(a + [ch] + b)
  {
    var s := a + [ch] + b;
    forall i | 0 <= i < |s|
      ensures !SepAt(s, i)
    {
      if i + 1 < |a| {
        assert s[i] == a[i] && s[i + 1] == a[i + 1];
        assert !SepAt(a, i);
      } else if i + 1 == |a| {
        assert s[i + 1] == ch;
      } else if i == |a| {
        assert s[i] == ch;
      } else if i + 1 < |s| {
        assert s[i] == b[i - |a| - 1] && s[i + 1] == b[i - |a|];
        assert !SepAt(b, i - |a| - 1);
      }
    }
  }

  /** Position of the first occurrence of `ch` in `s`, if any. */
  function IndexOf(s: string, ch: char): (r: Option<nat>)
    ensures r.Some? ==> r.value < |s| && s[r.value] == ch && ch !in s[..r.value]
    ensures r.None? ==> ch !in s
  {
    if |s| == 0 then None
    else if s[0] == ch then Some(0)
    else
      match IndexOf(s[1..], ch)
      case None => None
      case Some(k) =>
        assert s[..k + 1] == [s[0]] + s[1..][..k];
        Some(k + 1)
  }

  /** The first occurrence of `ch` is found where it is. */
  lemma {:induction false} IndexOfAt(s: string, ch: char, k: nat)
    requires k < |s| && s[k] == ch && ch !in s[..k]
    ensures IndexOf(s, ch) == Some(k)
  {
    if k > 0 {
      assert s[0] == s[..k][0];
      assert s[1..][..k - 1] == s[1..k];
      assert s[1..k] <= s[..k][1..];
      IndexOfAt(s[1..], ch, k - 1);
    }
  }

  predicate IsDigit(ch: char) {
    '0' <= ch <= '9'
  }

  function Digit(d: nat): (ch: char)
    requires d < 10
    ensures IsDigit(ch)
  {
    (d + '0' as int) as char
  }

  function DigitValue(ch: char): nat
    requires IsDigit(ch)
  {
    ch as int - '0' as int
  }

  predicate AllDigits(s: string) {
    forall i :: 0 <= i < |s| ==> IsDigit(s[i])
  }

  /** Decimal notation of `n`, without leading zeros. */
  function NatStr(n: nat): (r: string)
    ensures |r| >= 1 && AllDigits(r)
    ensures r[0] == '0' <==> n == 0
    decreases n
  {
    if n < 10 then [Digit(n)] else NatStr(n / 10) + [Digit(n % 10)]
  }

  /** Reads a string of decimal digits back as a number. */
  function ParseNat(s: string): nat
    requires AllDigits(s)
  {
    if |s| == 0 then 0 else 10 * ParseNat(s[..|s| - 1]) + DigitValue(s[|s| - 1])
  }

  lemma {:induction false} ParseNatStr(n: nat)
    ensures ParseNat(NatStr(n)) == n
    decreases n
  {
    if n >= 10 {
      var s := NatStr(n);
      assert s[..|s| - 1] == NatStr(n / 10);
      ParseNatStr(n / 10);
    }
  }
}
