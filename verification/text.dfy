/** The pieces of Kotlin's string library the core relies on: ASCII case
    folding, `contains(ignoreCase = true)`, `startsWith(ignoreCase = true)`,
    `joinToString`, splitting at a character, and decimal digit strings. */
module Text {

  predicate IsDigit(c: char) {
    '0' <= c <= '9'
  }

  predicate AllDigits(s: string) {
    forall i :: 0 <= i < |s| ==> IsDigit(s[i])
  }

  /** Kotlin's `lowercaseChar`, restricted to ASCII letters. */
  function Lower(c: char): char {
    if 'A' <= c <= 'Z' then (c as int + 32) as char else c
  }

  /** Kotlin's `uppercaseChar`, restricted to ASCII letters. */
  function Upper(c: char): char {
    if 'a' <= c <= 'z' then (c as int - 32) as char else c
  }

  /** Kotlin's `Char.equals(other, ignoreCase = true)`: equal, or equal
      after upper-casing, or equal after upper- then lower-casing. */
  predicate CharEqualsIgnoreCase(a: char, b: char) {
    a == b || Upper(a) == Upper(b) || Lower(Upper(a)) == Lower(Upper(b))
  }

  /** Over ASCII folding, Kotlin's comparison ignoring case is the same as
      comparing the lower-case forms. With full Unicode folding the two
      differ (U+017F upper-cases to 'S' but lower-cases to itself). */
  lemma AsciiFoldingsAgree(a: char, b: char)
    ensures CharEqualsIgnoreCase(a, b) <==> Lower(a) == Lower(b)
  {
  }

  /** Lower-casing one side does not change a comparison ignoring case. */
  lemma CharEqualsLower(a: char, b: char)
    ensures CharEqualsIgnoreCase(Lower(a), b) <==> CharEqualsIgnoreCase(a, b)
  {
    AsciiFoldingsAgree(Lower(a), b);
    AsciiFoldingsAgree(a, b);
  }

  /** Two strings of equal length whose characters agree ignoring case
      (the per-character test of Kotlin's `regionMatches`). */
  predicate EqualsIgnoreCase(a: string, b: string) {
    |a| == |b| && forall k :: 0 <= k < |a| ==> CharEqualsIgnoreCase(a[k], b[k])
  }

  /** `kw` occurs in `s` starting at index `i`, ignoring case. */
  predicate OccursAt(s: string, kw: string, i: int) {
    0 <= i && i + |kw| <= |s| && EqualsIgnoreCase(s[i..i + |kw|], kw)
  }

  /** Kotlin's `s.contains(kw, ignoreCase = true)`, as a left-to-right scan;
      its contract says it finds an occurrence exactly when one exists. */
  function ContainsIgnoreCase(s: string, kw: string): (r: bool)
    ensures r <==> exists i :: OccursAt(s, kw, i)
    decreases |s|
  {
    if |s| < |kw| then
      assert forall i :: !OccursAt(s, kw, i);
      false
    else if EqualsIgnoreCase(s[..|kw|], kw) then
      assert OccursAt(s, kw, 0);
      true
    else
      OccursShift(s, kw);
      assert !OccursAt(s, kw, 0);
      ContainsIgnoreCase(s[1..], kw)
  }

  /** An occurrence in `s[1..]` is an occurrence in `s` one index later. */
  lemma OccursShift(s: string, kw: string)
    requires |s| > 0
    ensures (exists i :: OccursAt(s[1..], kw, i)) <==> (exists j :: j > 0 && OccursAt(s, kw, j))
  {
    if i :| OccursAt(s[1..], kw, i) {
      assert s[1..][i..i + |kw|] == s[i + 1..i + 1 + |kw|];
      assert OccursAt(s, kw, i + 1);
    }
    if j :| j > 0 && OccursAt(s, kw, j) {
      assert s[1..][j - 1..j - 1 + |kw|] == s[j..j + |kw|];
      assert OccursAt(s[1..], kw, j - 1);
    }
  }

  /** A string containing a keyword contains every piece of that keyword. */
  lemma {:induction false} ContainsPiece(s: string, kw: string, from: nat, to: nat)
    requires from <= to <= |kw|
    requires ContainsIgnoreCase(s, kw)
    ensures ContainsIgnoreCase(s, kw[from..to])
  {
    var i :| OccursAt(s, kw, i);
    var piece := kw[from..to];
    forall k | 0 <= k < |piece|
      ensures CharEqualsIgnoreCase(s[i + from..i + from + |piece|][k], piece[k])
    {
      assert s[i..i + |kw|][from + k] == s[i + from + k];
    }
    assert OccursAt(s, piece, i + from);
  }

  /** `s.lowercase()`, restricted to ASCII letters. */
  function LowerAll(s: string): (r: string)
    ensures |r| == |s|
    ensures forall i :: 0 <= i < |s| ==> r[i] == Lower(s[i])
  {
    seq(|s|, i requires 0 <= i < |s| => Lower(s[i]))
  }

  /** Searching ignoring case cannot tell a string from its lower-case
      form. */
  lemma ContainsLowerAll(s: string, kw: string)
    ensures ContainsIgnoreCase(LowerAll(s), kw) == ContainsIgnoreCase(s, kw)
  {
    var t := LowerAll(s);
    forall i | 0 <= i && i + |kw| <= |s|
      ensures OccursAt(t, kw, i) <==> OccursAt(s, kw, i)
    {
      var a, b := s[i..i + |kw|], t[i..i + |kw|];
      forall k | 0 <= k < |kw|
        ensures CharEqualsIgnoreCase(b[k], kw[k]) <==> CharEqualsIgnoreCase(a[k], kw[k])
      {
        CharEqualsLower(a[k], kw[k]);
      }
    }
  }

  /** Kotlin's `s.startsWith(c, ignoreCase = true)`. */
  predicate StartsWithIgnoreCase(s: string, c: char) {
    |s| > 0 && CharEqualsIgnoreCase(s[0], c)
  }

  /** Kotlin's `joinToString(sep)`: the parts with `sep` between neighbours. */
  function Join(xs: seq<string>, sep: string): string
    decreases |xs|
  {
    if |xs| == 0 then ""
    else if |xs| == 1 then xs[0]
    else xs[0] + sep + Join(xs[1..], sep)
  }

  /** The joined string has the total length of the parts plus one
      separator per gap; in particular it is empty only for an empty list
      when the first part is not empty. */
  lemma {:induction false} JoinLength(xs: seq<string>, sep: string)
    requires |xs| > 0
    ensures |Join(xs, sep)| >= |xs[0]| + (|xs| - 1) * |sep|
    ensures |Join(xs, sep)| >= |xs[|xs| - 1]|
    decreases |xs|
  {
    if |xs| > 1 {
      JoinLength(xs[1..], sep);
    }
  }

  /** Index of the first `c` in `s`, or -1 when there is none. */
  function IndexOf(s: string, c: char): (k: int)
    ensures k == -1 <==> c !in s
    ensures k != -1 ==> 0 <= k < |s| && s[k] == c && c !in s[..k]
    decreases |s|
  {
    if |s| == 0 then -1
    else if s[0] == c then 0
    else
      var k := IndexOf(s[1..], c);
      if k == -1 then -1
      else
        assert s[..k + 1] == [s[0]] + s[1..][..k];
        k + 1
  }

  /** Cuts `s` at every occurrence of `c`; `Split("", c) == [""]`. */
  function Split(s: string, c: char): (parts: seq<string>)
    ensures |parts| > 0
    ensures forall i :: 0 <= i < |parts| ==> c !in parts[i]
    decreases |s|
  {
    var k := IndexOf(s, c);
    if k == -1 then [s] else [s[..k]] + Split(s[k + 1..], c)
  }

  lemma IndexOfFirstGap(a: string, c: char, b: string)
    requires c !in a
    ensures IndexOf(a + [c] + b, c) == |a|
  {
    var s := a + [c] + b;
    assert s[|a|] == c;
    assert s[..|a|] == a;
  }

  /** Splitting at the first separator: the part before it, then the
      split of the rest. */
  lemma SplitFirst(a: string, c: char, b: string)
    requires c !in a
    ensures Split(a + [c] + b, c) == [a] + Split(b, c)
  {
    var s := a + [c] + b;
    IndexOfFirstGap(a, c, b);
    assert s[..|a|] == a;
    assert s[|a| + 1..] == b;
  }

  /** Splitting a join recovers the parts, when no part holds the separator. */
  lemma {:induction false} SplitJoin(xs: seq<string>, c: char)
    requires |xs| > 0
    requires forall i :: 0 <= i < |xs| ==> c !in xs[i]
    ensures Split(Join(xs, [c]), c) == xs
    decreases |xs|
  {
    if |xs| > 1 {
      var rest := Join(xs[1..], [c]);
      assert Join(xs, [c]) == xs[0] + [c] + rest;
      SplitFirst(xs[0], c, rest);
      assert forall i :: 0 <= i < |xs[1..]| ==> xs[1..][i] == xs[i + 1];
      SplitJoin(xs[1..], c);
      assert xs == [xs[0]] + xs[1..];
    } else {
      assert Join(xs, [c]) == xs[0];
      assert IndexOf(xs[0], c) == -1;
    }
  }

  function DigitChar(d: nat): char
    requires d < 10
  {
    ('0' as int + d) as char
  }

  function DigitValue(c: char): nat
    requires IsDigit(c)
  {
    c as int - '0' as int
  }

  /** The number a string of decimal digits denotes (most significant first). */
  function ValueOf(ds: string): nat
    requires AllDigits(ds)
    decreases |ds|
  {
    if |ds| == 0 then 0
    else 10 * ValueOf(ds[..|ds| - 1]) + DigitValue(ds[|ds| - 1])
  }

  /** The decimal rendering of `n`, without leading zeros; it reads back as `n`. */
  function DecimalOf(n: nat): (ds: string)
    ensures |ds| > 0 && AllDigits(ds)
    ensures ValueOf(ds) == n
    ensures |ds| > 1 ==> ds[0] != '0'
    decreases n
  {
    if n < 10 then [DigitChar(n)]
    else
      var ds := DecimalOf(n / 10) + [DigitChar(n % 10)];
      assert ds[..|ds| - 1] == DecimalOf(n / 10);
      ds
  }

  /** Leading zeros do not change the value of a digit string. */
  lemma {:induction false} LeadingZero(ds: string)
    requires AllDigits(ds)
    ensures AllDigits("0" + ds) && ValueOf("0" + ds) == ValueOf(ds)
    decreases |ds|
  {
    var z := "0" + ds;
    if |ds| > 0 {
      assert z[..|z| - 1] == "0" + ds[..|ds| - 1];
      LeadingZero(ds[..|ds| - 1]);
    }
  }
}
