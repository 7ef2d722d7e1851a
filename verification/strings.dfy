/** String operations the renderer and the editors use: `Array.prototype.join`,
    decimal rendering of numbers, `String.prototype.replace` with a string
    pattern, the whitespace test behind `String.prototype.trim`, and the
    default ordering of `Array.prototype.sort` on strings. */
module Strings {
  import opened Wrappers

  // ---------------------------------------------------------------------------
  // join

  /** `parts.join(sep)`: the parts in order with `sep` between neighbours. */
  function Join(parts: seq<string>, sep: string): (r: string)
    ensures |parts| == 0 ==> r == ""
    ensures |parts| == 1 ==> r == parts[0]
    ensures |parts| >= 2 ==> parts[0] + sep <= r
    ensures |parts| > 0 ==> parts[0] <= r
  {
    if |parts| == 0 then ""
    else if |parts| == 1 then parts[0]
    else parts[0] + sep + Join(parts[1..], sep)
  }

  /** Joining two non-empty lists of parts puts one separator between them. */
  lemma {:induction false} JoinAppend(a: seq<string>, b: seq<string>, sep: string)
    requires |a| > 0 && |b| > 0
    ensures Join(a + b, sep) == Join(a, sep) + sep + Join(b, sep)
    decreases |a|
  {
    if |a| == 1 {
      assert (a + b)[1..] == b;
    } else {
      assert (a + b)[1..] == a[1..] + b;
      JoinAppend(a[1..], b, sep);
    }
  }

  /** With a non-empty separator, a join is empty exactly when there is
      nothing to join but (at most) one empty part. */
  lemma JoinEmptyIff(parts: seq<string>, sep: string)
    requires |sep| > 0
    ensures Join(parts, sep) == "" <==> |parts| == 0 || (|parts| == 1 && parts[0] == "")
  {
    if |parts| >= 2 {
      assert |parts[0] + sep| > 0;
    }
  }

  // ---------------------------------------------------------------------------
  // decimal digits

  predicate IsDigit(c: char) {
    '0' <= c <= '9'
  }

  predicate AllDigits(s: string) {
    forall i :: 0 <= i < |s| ==> IsDigit(s[i])
  }

  function DigitChar(d: nat): (c: char)
    requires d < 10
    ensures IsDigit(c)
  {
    ('0' as int + d) as char
  }

  function DigitValue(c: char): (d: nat)
    requires IsDigit(c)
    ensures d < 10
  {
    (c as int - '0' as int)
  }

  function Pow10(n: nat): (p: nat)
    ensures p >= 1
  {
    if n == 0 then 1 else 10 * Pow10(n - 1)
  }

  /** The number a string of decimal digits denotes (leading zeros allowed). */
  function DigitsValue(s: string): (v: nat)
    requires AllDigits(s)
    ensures v < Pow10(|s|)
  {
    if |s| == 0 then 0
    else DigitsValue(s[..|s| - 1]) * 10 + DigitValue(s[|s| - 1])
  }

  /** A number in decimal without padding, as JavaScript's `${n}` writes a
      non-negative integer. */
  function NatToString(n: nat): (r: string)
    ensures |r| >= 1 && AllDigits(r)
    ensures |r| > 1 ==> r[0] != '0'
    ensures n < 10 <==> |r| == 1
    decreases n
  {
    if n < 10 then [DigitChar(n)]
    else NatToString(n / 10) + [DigitChar(n % 10)]
  }

  /** Reading back a rendered number gives the number. */
  lemma {:induction false} NatToStringValue(n: nat)
    ensures DigitsValue(NatToString(n)) == n
    decreases n
  {
    if n >= 10 {
      var s := NatToString(n);
      assert s[..|s| - 1] == NatToString(n / 10);
      NatToStringValue(n / 10);
    }
  }

  /** Distinct numbers render as distinct strings. */
  lemma NatToStringInjective(a: nat, b: nat)
    ensures NatToString(a) == NatToString(b) <==> a == b
  {
    NatToStringValue(a);
    NatToStringValue(b);
  }

  /** Four-digit numbers render as four characters. */
  lemma NatToStringFourDigits(n: nat)
    requires 1000 <= n <= 9999
    ensures |NatToString(n)| == 4
  {
    assert |NatToString(n / 10)| == 3 by {
      assert |NatToString(n / 100)| == 2 by {
        assert |NatToString(n / 1000)| == 1;
      }
    }
  }

  /** The last `width` decimal digits of `n`, zero-padded on the left: the
      `2-digit` and four-digit fields of dates. */
  function FixedDigits(n: nat, width: nat): (r: string)
    ensures |r| == width && AllDigits(r)
  {
    if width == 0 then ""
    else FixedDigits(n / 10, width - 1) + [DigitChar(n % 10)]
  }

  /** A number that fits in `width` digits is read back from its padded form. */
  lemma {:induction false} FixedDigitsValue(n: nat, width: nat)
    requires n < Pow10(width)
    ensures DigitsValue(FixedDigits(n, width)) == n
    decreases width
  {
    if width > 0 {
      var s := FixedDigits(n, width);
      assert s[..|s| - 1] == FixedDigits(n / 10, width - 1);
      assert n / 10 < Pow10(width - 1);
      FixedDigitsValue(n / 10, width - 1);
    }
  }

  /** A digit string is the padded form of its own value: padding is the
      inverse of reading. */
  lemma {:induction false} FixedDigitsOfValue(s: string)
    requires AllDigits(s)
    ensures FixedDigits(DigitsValue(s), |s|) == s
    decreases |s|
  {
    if |s| > 0 {
      var init := s[..|s| - 1];
      var v := DigitsValue(s);
      assert v / 10 == DigitsValue(init);
      assert v % 10 == DigitValue(s[|s| - 1]);
      FixedDigitsOfValue(init);
      assert s == init + [s[|s| - 1]];
    }
  }

  // ---------------------------------------------------------------------------
  // String.prototype.replace with a string pattern

  predicate OccursAt(s: string, pat: string, p: int) {
    0 <= p && p + |pat| <= |s| && s[p..p + |pat|] == pat
  }

  /** `p` is the leftmost position where `pat` occurs in `s`. */
  predicate FirstOccurrence(s: string, pat: string, p: int) {
    OccursAt(s, pat, p) && forall q :: 0 <= q < p ==> !OccursAt(s, pat, q)
  }

  /** `s.indexOf(pat, k)`: the leftmost occurrence at or after `k`. */
  function IndexOfFrom(s: string, pat: string, k: nat): (r: Option<nat>)
    requires k <= |s|
    ensures r.Some? ==> k <= r.value && OccursAt(s, pat, r.value)
    ensures r.Some? ==> forall q :: k <= q < r.value ==> !OccursAt(s, pat, q)
    ensures r.None? ==> forall q :: k <= q ==> !OccursAt(s, pat, q)
    decreases |s| - k
  {
    if k + |pat| > |s| then None
    else if s[k..k + |pat|] == pat then Some(k)
    else IndexOfFrom(s, pat, k + 1)
  }

  /** `s.replace(pat, rep)`: only the leftmost occurrence of `pat` is
      replaced; without an occurrence the string is returned as is. */
  function ReplaceFirst(s: string, pat: string, rep: string): (r: string)
    ensures (forall q :: !OccursAt(s, pat, q)) ==> r == s
    ensures forall p :: FirstOccurrence(s, pat, p) ==> r == s[..p] + rep + s[p + |pat|..]
  {
    match IndexOfFrom(s, pat, 0)
    case None => s
    case Some(i) => s[..i] + rep + s[i + |pat|..]
  }

  // ---------------------------------------------------------------------------
  // String.prototype.trim

  /** The characters `trim` removes: ECMAScript WhiteSpace (tab, vertical tab,
      form feed, space, no-break space, byte-order mark and the Unicode space
      separators) and LineTerminator. */
  predicate IsJsWhitespace(c: char) {
    c == '\t' || c == '\U{000B}' || c == '\U{000C}' || c == ' ' ||
    c == '\U{00A0}' || c == '\U{FEFF}' || c == '\U{1680}' ||
    ('\U{2000}' <= c <= '\U{200A}') || c == '\U{202F}' || c == '\U{205F}' ||
    c == '\U{3000}' ||
    c == '\n' || c == '\r' || c == '\U{2028}' || c == '\U{2029}'
  }

  /** `s.trim() === ''`. */
  predicate IsBlank(s: string) {
    forall i :: 0 <= i < |s| ==> IsJsWhitespace(s[i])
  }

  /** A string that survives `.filter(str => str !== "")`. */
  predicate NonEmpty(s: string) {
    s != ""
  }

  /** A string that survives `.filter(str => str.trim() !== '')`. */
  predicate Visible(s: string) {
    !IsBlank(s)
  }

  // ---------------------------------------------------------------------------
  // Array.prototype.sort() on strings

  /** The comparison the default `sort()` uses on strings: lexicographic
      character by character, a proper prefix first. */
  predicate StringLe(a: string, b: string)
    decreases |a|
  {
    |a| == 0 ||
    (|b| > 0 && (a[0] < b[0] || (a[0] == b[0] && StringLe(a[1..], b[1..]))))
  }

  lemma {:induction false} StringLeTotal(a: string, b: string)
    ensures StringLe(a, b) || StringLe(b, a)
    decreases |a|
  {
    if |a| > 0 && |b| > 0 && a[0] == b[0] {
      StringLeTotal(a[1..], b[1..]);
    }
  }

  lemma {:induction false} StringLeTransitive(a: string, b: string, c: string)
    requires StringLe(a, b) && StringLe(b, c)
    ensures StringLe(a, c)
    decreases |a|
  {
    if |a| > 0 && a[0] == b[0] && b[0] == c[0] {
      StringLeTransitive(a[1..], b[1..], c[1..]);
    }
  }

  lemma {:induction false} StringLeAntisymmetric(a: string, b: string)
    requires StringLe(a, b) && StringLe(b, a)
    ensures a == b
    decreases |a|
  {
    if |a| > 0 {
      StringLeAntisymmetric(a[1..], b[1..]);
      assert a == [a[0]] + a[1..] && b == [b[0]] + b[1..];
    }
  }

  ghost predicate SortedStrings(s: seq<string>) {
    forall i, j :: 0 <= i < j < |s| ==> StringLe(s[i], s[j])
  }

  lemma StringLeAllAfter(x: string, s: seq<string>)
    requires SortedStrings(s) && |s| > 0 && StringLe(x, s[0])
    ensures forall j :: 0 <= j < |s| ==> StringLe(x, s[j])
  {
    forall j | 0 <= j < |s|
      ensures StringLe(x, s[j])
    {
      if j > 0 {
        StringLeTransitive(x, s[0], s[j]);
      }
    }
  }

  /** Putting a string in front of a sorted list that it precedes entirely
      keeps the list sorted. */
  lemma SortedCons(h: string, t: seq<string>)
    requires SortedStrings(t)
    requires forall y :: y in multiset(t) ==> StringLe(h, y)
    ensures SortedStrings([h] + t)
  {
    var r := [h] + t;
    forall i, j | 0 <= i < j < |r|
      ensures StringLe(r[i], r[j])
    {
      if i == 0 {
        assert r[j] == t[j - 1];
        assert t[j - 1] in multiset(t);
      } else {
        assert r[i] == t[i - 1] && r[j] == t[j - 1];
      }
    }
  }

  function InsertString(x: string, s: seq<string>): (r: seq<string>)
    requires SortedStrings(s)
    ensures SortedStrings(r)
    ensures multiset(r) == multiset(s) + multiset{x}
  {
    if |s| == 0 then [x]
    else if StringLe(x, s[0]) then
      StringLeAllAfter(x, s);
      [x] + s
    else
      StringLeTotal(x, s[0]);
      assert s == [s[0]] + s[1..];
      var tail := InsertString(x, s[1..]);
      assert forall y :: y in multiset(tail) ==> StringLe(s[0], y) by {
        forall y | y in multiset(tail)
          ensures StringLe(s[0], y)
        {
          if y != x {
            assert y in multiset(s[1..]);
            var j :| 0 <= j < |s[1..]| && s[1..][j] == y;
            assert s[j + 1] == y;
          }
        }
      }
      SortedCons(s[0], tail);
      [s[0]] + tail
  }

  /** `array.sort()` on strings: an ordered permutation of the input. */
  function SortStrings(s: seq<string>): (r: seq<string>)
    ensures SortedStrings(r)
    ensures multiset(r) == multiset(s)
  {
    if |s| == 0 then []
    else
      assert s == [s[0]] + s[1..];
      InsertString(s[0], SortStrings(s[1..]))
  }

  lemma StringLeReflexive(a: string)
    ensures StringLe(a, a)
  {
    StringLeTotal(a, a);
  }

  /** A sorted list's head precedes every string it holds. */
  lemma HeadPrecedes(s: seq<string>, x: string)
    requires SortedStrings(s) && x in multiset(s)
    ensures StringLe(s[0], x)
  {
    var j :| 0 <= j < |s| && s[j] == x;
    if j == 0 {
      StringLeReflexive(x);
    }
  }

  /** Two sorted non-empty lists holding the same strings start alike. */
  lemma SortedSameHead(a: seq<string>, b: seq<string>)
    requires SortedStrings(a) && SortedStrings(b) && multiset(a) == multiset(b)
    requires |a| > 0 && |b| > 0
    ensures a[0] == b[0]
  {
    assert a[0] in multiset(b) && b[0] in multiset(a);
    HeadPrecedes(a, b[0]);
    HeadPrecedes(b, a[0]);
    StringLeAntisymmetric(a[0], b[0]);
  }

  lemma SortedTail(s: seq<string>)
    requires SortedStrings(s) && |s| > 0
    ensures SortedStrings(s[1..])
  {
  }

  lemma SameTailStrings(a: seq<string>, b: seq<string>)
    requires |a| > 0 && |b| > 0 && a[0] == b[0] && multiset(a) == multiset(b)
    ensures multiset(a[1..]) == multiset(b[1..])
  {
    assert a == [a[0]] + a[1..] && b == [b[0]] + b[1..];
    assert multiset(a) == multiset{a[0]} + multiset(a[1..]);
    assert multiset(b) == multiset{b[0]} + multiset(b[1..]);
    forall y
      ensures multiset(a[1..])[y] == multiset(b[1..])[y]
    {
      assert multiset(a)[y] == multiset{a[0]}[y] + multiset(a[1..])[y];
      assert multiset(b)[y] == multiset{b[0]}[y] + multiset(b[1..])[y];
    }
  }

  /** Two sorted lists holding the same strings are the same list. */
  lemma {:induction false} SortedPermutationsEqual(a: seq<string>, b: seq<string>)
    requires SortedStrings(a) && SortedStrings(b) && multiset(a) == multiset(b)
    ensures a == b
    decreases |a|
  {
    assert |a| == |multiset(a)| == |multiset(b)| == |b|;
    if |a| > 0 {
      SortedSameHead(a, b);
      SortedTail(a);
      SortedTail(b);
      SameTailStrings(a, b);
      SortedPermutationsEqual(a[1..], b[1..]);
      assert a == [a[0]] + a[1..] && b == [b[0]] + b[1..];
    }
  }

  /** `sort()`'s result is the only ascending arrangement of its input. */
  lemma SortStringsUnique(s: seq<string>, t: seq<string>)
    requires SortedStrings(t) && multiset(t) == multiset(s)
    ensures t == SortStrings(s)
  {
    SortedPermutationsEqual(t, SortStrings(s));
  }
}
