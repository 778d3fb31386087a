/** Character-string helpers shared by the configuration and platform code:
    the libretro-common `string_split` tokenizer (which is built on `strtok`,
    so empty fields vanish), its inverse `Join`, substring search and decimal
    rendering. */
module Text {
  import opened Wrappers

  /** `s` with every `sep` removed. */
  function Strip(s: string, sep: char): (r: string)
    ensures |r| <= |s|
    ensures forall i :: 0 <= i < |r| ==> r[i] != sep
  {
    if |s| == 0 then "" else (if s[0] == sep then "" else [s[0]]) + Strip(s[1..], sep)
  }

  function Concat(parts: seq<string>): string
  {
    if |parts| == 0 then "" else parts[0] + Concat(parts[1..])
  }

  /** Fields that `string_split` can return: non-empty and free of the
      separator. */
  predicate Token(t: string, sep: char)
  {
    |t| > 0 && forall i :: 0 <= i < |t| ==> t[i] != sep
  }

  /** Length of the leading run of `s` that contains no `sep`. */
  function RunLength(s: string, sep: char): (n: nat)
    ensures n <= |s|
    ensures forall i :: 0 <= i < n ==> s[i] != sep
    ensures n < |s| ==> s[n] == sep
  {
    if |s| == 0 || s[0] == sep then 0 else 1 + RunLength(s[1..], sep)
  }

  /** `string_split(s, sep)`: the maximal separator-free runs of `s`, in
      order, empty runs dropped. */
  function Split(s: string, sep: char): (r: seq<string>)
    ensures forall i :: 0 <= i < |r| ==> Token(r[i], sep)
    ensures |r| <= |s|
    decreases |s|
  {
    if |s| == 0 then []
    else if s[0] == sep then Split(s[1..], sep)
    else
      var n := RunLength(s, sep);
      [s[..n]] + Split(s[n..], sep)
  }

  /** Every character of `s` other than the separator ends up in exactly one
      field, in order. */
  lemma {:induction false} SplitKeepsText(s: string, sep: char)
    ensures Concat(Split(s, sep)) == Strip(s, sep)
    decreases |s|
  {
    if |s| == 0 {
    } else if s[0] == sep {
      SplitKeepsText(s[1..], sep);
    } else {
      var n := RunLength(s, sep);
      SplitKeepsText(s[n..], sep);
      StripRun(s, sep, n);
      assert Split(s, sep)[1..] == Split(s[n..], sep);
    }
  }

  /** Stripping a separator-free prefix keeps it. */
  lemma {:induction false} StripRun(s: string, sep: char, n: nat)
    requires n <= |s|
    requires forall i :: 0 <= i < n ==> s[i] != sep
    ensures Strip(s, sep) == s[..n] + Strip(s[n..], sep)
    decreases n
  {
    if n > 0 {
      StripRun(s[1..], sep, n - 1);
      assert s[1..][n-1..] == s[n..];
      assert s[..n] == [s[0]] + s[1..][..n-1];
    }
  }

  /** `a|b|c`: the fields joined with the separator. */
  function Join(parts: seq<string>, sep: char): (r: string)
    ensures |parts| == 1 ==> r == parts[0]
  {
    if |parts| == 0 then ""
    else if |parts| == 1 then parts[0]
    else parts[0] + [sep] + Join(parts[1..], sep)
  }

  /** Splitting a joined list of proper fields gives the fields back. */
  lemma {:induction false} SplitJoin(parts: seq<string>, sep: char)
    requires forall i :: 0 <= i < |parts| ==> Token(parts[i], sep)
    ensures Split(Join(parts, sep), sep) == parts
    decreases |parts|
  {
    if |parts| == 0 {
    } else {
      var t := parts[0];
      var s := Join(parts, sep);
      RunOfToken(t, sep, if |parts| == 1 then "" else [sep] + Join(parts[1..], sep));
      if |parts| == 1 {
        assert s == t + "";
        assert s[|t|..] == "";
      } else {
        var rest := Join(parts[1..], sep);
        assert s == t + ([sep] + rest);
        assert s[|t|..] == [sep] + rest;
        assert ([sep] + rest)[1..] == rest;
        SplitJoin(parts[1..], sep);
      }
      assert s[..|t|] == t;
    }
  }

  /** A token in front of text that starts with a separator (or ends) is one
      run. */
  lemma {:induction false} RunOfToken(t: string, sep: char, rest: string)
    requires Token(t, sep)
    requires |rest| == 0 || rest[0] == sep
    ensures RunLength(t + rest, sep) == |t|
    decreases |t|
  {
    if |t| > 1 {
      assert (t + rest)[1..] == t[1..] + rest;
      RunOfToken(t[1..], sep, rest);
    } else {
      assert (t + rest)[1..] == rest;
    }
  }

  predicate At(s: string, i: nat, pat: string)
  {
    i + |pat| <= |s| && s[i..i + |pat|] == pat
  }

  /** `strstr(s, pat)`: the first position where `pat` occurs. */
  function Find(s: string, pat: string, from: nat := 0): (r: Option<nat>)
    requires from <= |s|
    ensures r.Some? ==> from <= r.value && At(s, r.value, pat)
    ensures r.Some? ==> forall j :: from <= j < r.value ==> !At(s, j, pat)
    ensures r.None? ==> forall j :: from <= j <= |s| ==> !At(s, j, pat)
    decreases |s| - from
  {
    if from + |pat| > |s| then None
    else if s[from..from + |pat|] == pat then Some(from)
    else if from == |s| then None
    else Find(s, pat, from + 1)
  }

  /** Position of the first element of `xs` equal to `x`. */
  function IndexOf<T(==)>(xs: seq<T>, x: T): (r: Option<nat>)
    ensures r.Some? ==> r.value < |xs| && xs[r.value] == x
    ensures r.Some? ==> forall j :: 0 <= j < r.value ==> xs[j] != x
    ensures r.None? <==> x !in xs
  {
    if |xs| == 0 then None
    else if xs[0] == x then Some(0)
    else match IndexOf(xs[1..], x)
      case None => None
      case Some(k) => Some(k + 1)
  }

  function Digit(d: nat): (c: char)
    requires d < 10
    ensures '0' <= c <= '9' && DigitValue(c) == d
  {
    ('0' as int + d) as char
  }

  /** `%u` rendering of a natural number. */
  function Decimal(n: nat): (r: string)
    ensures |r| > 0 && forall i :: 0 <= i < |r| ==> '0' <= r[i] <= '9'
    ensures n < 10 <==> |r| == 1
  {
    if n < 10 then [Digit(n)] else Decimal(n / 10) + [Digit(n % 10)]
  }

  function DigitValue(c: char): nat
    requires '0' <= c <= '9'
  {
    (c - '0') as nat
  }

  /** Reading a decimal string back (`strtoul` on digits only). */
  function ParseDecimal(s: string): (n: nat)
    requires forall i :: 0 <= i < |s| ==> '0' <= s[i] <= '9'
  {
    if |s| == 0 then 0 else 10 * ParseDecimal(s[..|s| - 1]) + DigitValue(s[|s| - 1])
  }

  lemma {:induction false} DecimalRoundTrip(n: nat)
    ensures ParseDecimal(Decimal(n)) == n
    decreases n
  {
    if n >= 10 {
      DecimalRoundTrip(n / 10);
      var r := Decimal(n);
      assert r[..|r| - 1] == Decimal(n / 10);
    }
  }
}
