/** String helpers shared by the router and the date formatter: JavaScript's
    `String.prototype.split` on a one-character separator and the decimal
    digit prefix that `parseInt(s, 10)` reads. */
module Text {

  import opened Wrappers

  /** `s.split(c)`: the pieces of `s` between occurrences of `c`; never empty. */
  function Split(s: string, c: char): (parts: seq<string>)
    ensures |parts| >= 1
    ensures forall k :: 0 <= k < |parts| ==> c !in parts[k]
  {
    if |s| == 0 then [""]
    else
      var rest := Split(s[1..], c);
      if s[0] == c then [""] + rest
      else [[s[0]] + rest[0]] + rest[1..]
  }

  /** A string without the separator is one piece. */
  lemma {:induction false} SplitNoSeparator(s: string, c: char)
    requires c !in s
    ensures Split(s, c) == [s]
  {
    if |s| > 0 {
      assert s[0] in s;
      SplitNoSeparator(s[1..], c);
      assert [s[0]] + s[1..] == s;
    }
  }

  /** The first piece is everything before the first separator; the rest is the split of what follows it. */
  lemma {:induction false} SplitAtFirst(y: string, c: char, z: string)
    requires c !in y
    ensures Split(y + [c] + z, c) == [y] + Split(z, c)
  {
    if |y| == 0 {
      assert y + [c] + z == [c] + z;
      assert ([c] + z)[1..] == z;
    } else {
      assert (y + [c] + z)[1..] == y[1..] + [c] + z;
      SplitAtFirst(y[1..], c, z);
      assert [y[0]] + y[1..] == y;
    }
  }

  /** Two separator-free pieces joined by the separator split back into those two. */
  lemma SplitPair(y: string, c: char, z: string)
    requires c !in y && c !in z
    ensures Split(y + [c] + z, c) == [y, z]
  {
    SplitAtFirst(y, c, z);
    SplitNoSeparator(z, c);
  }

  /** Three pieces joined by the separator, the first two separator-free: those two come first. */
  lemma SplitTriple(y: string, c: char, m: string, d: string)
    requires c !in y && c !in m
    ensures |Split(y + [c] + m + [c] + d, c)| >= 2
    ensures Split(y + [c] + m + [c] + d, c)[0] == y && Split(y + [c] + m + [c] + d, c)[1] == m
  {
    assert y + [c] + m + [c] + d == y + [c] + (m + [c] + d);
    SplitAtFirst(y, c, m + [c] + d);
    SplitAtFirst(m, c, d);
  }

  predicate IsDigit(ch: char) {
    '0' <= ch <= '9'
  }

  predicate AllDigits(s: string) {
    forall k :: 0 <= k < |s| ==> IsDigit(s[k])
  }

  /** The decimal value of a digit string, most significant digit first. */
  function DigitsValue(s: string): (value: nat)
    requires AllDigits(s)
  {
    if |s| == 0 then 0
    else DigitsValue(s[..|s| - 1]) * 10 + (s[|s| - 1] - '0') as nat
  }

  /** The longest prefix of `s` made of decimal digits. */
  function DigitPrefix(s: string): (p: string)
    ensures AllDigits(p) && |p| <= |s| && p == s[..|p|]
    ensures |p| < |s| ==> !IsDigit(s[|p|])
  {
    if |s| > 0 && IsDigit(s[0]) then [s[0]] + DigitPrefix(s[1..]) else ""
  }

  /** `parseInt(s, 10)` on the strings the source gives it: the value of the
      leading digits, or `None` (NaN) when `s` does not start with a digit. */
  function ParseIntPrefix(s: string): (n: Option<nat>)
    ensures n.None? <==> (|s| == 0 || !IsDigit(s[0]))
  {
    var p := DigitPrefix(s);
    if |p| == 0 then None else Some(DigitsValue(p))
  }

  /** A string made only of digits parses to its own value. */
  lemma {:induction false} ParseIntOfDigits(s: string)
    requires |s| > 0 && AllDigits(s)
    ensures ParseIntPrefix(s) == Some(DigitsValue(s))
  {
    DigitPrefixOfDigits(s);
  }

  lemma {:induction false} DigitPrefixOfDigits(s: string)
    requires AllDigits(s)
    ensures DigitPrefix(s) == s
  {
    if |s| > 0 {
      DigitPrefixOfDigits(s[1..]);
      assert [s[0]] + s[1..] == s;
    }
  }

  /** Digit strings of the same length with the same value are the same string. */
  lemma {:induction false} DigitsValueInjective(a: string, b: string)
    requires AllDigits(a) && AllDigits(b) && |a| == |b|
    requires DigitsValue(a) == DigitsValue(b)
    ensures a == b
  {
    if |a| > 0 {
      var n := |a| - 1;
      var da, db := (a[n] - '0') as nat, (b[n] - '0') as nat;
      assert DigitsValue(a[..n]) * 10 + da == DigitsValue(b[..n]) * 10 + db;
      assert da == db && DigitsValue(a[..n]) == DigitsValue(b[..n]);
      DigitsValueInjective(a[..n], b[..n]);
      assert a == a[..n] + [a[n]] && b == b[..n] + [b[n]];
    }
  }
}
