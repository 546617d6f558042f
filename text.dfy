/**
 * The Python string operations the listing manager relies on:
 * `str.strip()`, `str.lower()`, `needle in hay`, `str.replace(x, '')`
 * and the decimal text the price fields hold.
 */
module Text {
  import opened Wrappers

  /** `str.isspace()` for one code point: the characters `str.strip()` removes. */
  predicate IsSpace(c: char)
  {
    var n := c as int;
    (9 <= n <= 13) || (28 <= n <= 32) || n == 0x85 || n == 0xA0 || n == 0x1680
    || (0x2000 <= n <= 0x200A) || n == 0x2028 || n == 0x2029 || n == 0x202F
    || n == 0x205F || n == 0x3000
  }

  /** Removes leading whitespace: the result is the suffix left after a run of spaces. */
  function StripLeft(s: string): (r: string)
    ensures |r| <= |s| && r == s[|s| - |r|..]
    ensures forall i :: 0 <= i < |s| - |r| ==> IsSpace(s[i])
    ensures r == [] || !IsSpace(r[0])
  {
    if s != [] && IsSpace(s[0]) then StripLeft(s[1..]) else s
  }

  /** Removes trailing whitespace: the result is the prefix before a run of spaces. */
  function StripRight(s: string): (r: string)
    ensures |r| <= |s| && r == s[..|r|]
    ensures forall i :: |r| <= i < |s| ==> IsSpace(s[i])
    ensures r == [] || !IsSpace(r[|r| - 1])
  {
    if s != [] && IsSpace(s[|s| - 1]) then StripRight(s[..|s| - 1]) else s
  }

  /** A text made of whitespace only (Python: `not s.strip()`). */
  ghost predicate Blank(s: string)
  {
    forall i :: 0 <= i < |s| ==> IsSpace(s[i])
  }

  /**
   * Python's `s.strip()`: a slice of `s` with only whitespace cut off before and
   * after it, and no whitespace left at either end.
   */
  function Strip(s: string): (r: string)
    ensures |r| <= |s|
    ensures exists i, j :: 0 <= i <= j <= |s| && r == s[i..j] && Blank(s[..i]) && Blank(s[j..])
    ensures r == [] || (!IsSpace(r[0]) && !IsSpace(r[|r| - 1]))
  {
    var l := StripLeft(s);
    var r := StripRight(l);
    StripLeftCut(s);
    StripRightCut(l);
    StripMiddle(s, l, r);
    r
  }

  /** A prefix `r` of a suffix `l` of `s` is the slice of `s` where it sits. */
  lemma {:induction false} StripMiddle(s: string, l: string, r: string)
    requires |l| <= |s| && l == s[|s| - |l|..] && |r| <= |l| && r == l[..|r|]
    ensures r == s[|s| - |l|..|s| - |l| + |r|]
    ensures l[|r|..] == s[|s| - |l| + |r|..]
  {
    var i := |s| - |l|;
    forall k | 0 <= k < |r| ensures r[k] == s[i..i + |r|][k] {
      assert r[k] == l[k] == s[i + k];
    }
    forall k | 0 <= k < |l| - |r| ensures l[|r|..][k] == s[i + |r|..][k] {
      assert l[|r|..][k] == l[|r| + k] == s[i + |r| + k];
    }
  }

  /** What `StripLeft` cuts off is whitespace only. */
  lemma {:induction false} StripLeftCut(s: string)
    ensures Blank(s[..|s| - |StripLeft(s)|])
  {
    var n := |s| - |StripLeft(s)|;
    forall k | 0 <= k < n ensures IsSpace(s[..n][k]) {
      assert s[..n][k] == s[k];
    }
  }

  /** What `StripRight` cuts off is whitespace only. */
  lemma {:induction false} StripRightCut(s: string)
    ensures Blank(s[|StripRight(s)|..])
  {
    var n := |StripRight(s)|;
    forall k | 0 <= k < |s| - n ensures IsSpace(s[n..][k]) {
      assert s[n..][k] == s[n + k];
    }
  }

  /** A stripped text is empty exactly when the text was whitespace only. */
  lemma StripEmptyIff(s: string)
    ensures Strip(s) == [] <==> Blank(s)
  {
    var l := StripLeft(s);
    if Strip(s) == [] {
      assert l == [];
    } else {
      assert l != [] && !IsSpace(l[0]);
      assert s[|s| - |l|] == l[0];
    }
  }

  /** The Python string operations on the empty string. */
  lemma EmptyTextFacts()
    ensures Strip([]) == [] && Lower([]) == []
    ensures forall c :: RemoveChar([], c) == []
    ensures !IsDecimal([]) && ParseDecimal([]) == None
  {
  }

  /** A text without surrounding whitespace is left as it is. */
  lemma StripKeepsTrimmed(s: string)
    requires s == [] || (!IsSpace(s[0]) && !IsSpace(s[|s| - 1]))
    ensures Strip(s) == s
  {
  }

  /**
   * Python's `str.lower()` on one code point, for the ranges where it maps one
   * letter to one letter by adding 32: ASCII `A`-`Z` and Latin-1 `À`-`Þ` except `×`.
   */
  function LowerChar(c: char): char
  {
    var n := c as int;
    if (65 <= n <= 90) || (0xC0 <= n <= 0xDE && n != 0xD7) then (n + 32) as char else c
  }

  /** Python's `s.lower()`, character by character. */
  function Lower(s: string): (r: string)
    ensures |r| == |s|
    ensures forall i :: 0 <= i < |s| ==> r[i] == LowerChar(s[i])
  {
    if s == [] then [] else Lower(s[..|s| - 1]) + [LowerChar(s[|s| - 1])]
  }

  /** Lowering distributes over concatenation. */
  lemma LowerConcat(a: string, b: string)
    ensures Lower(a + b) == Lower(a) + Lower(b)
  {
    assert forall i :: 0 <= i < |a + b| ==> Lower(a + b)[i] == (Lower(a) + Lower(b))[i];
  }

  /** Lowering a lowered text changes nothing. */
  lemma LowerIdempotent(s: string)
    ensures Lower(Lower(s)) == Lower(s)
  {
    assert forall i :: 0 <= i < |s| ==> Lower(Lower(s))[i] == Lower(s)[i];
  }

  /** Lowering never turns a non-empty text into an empty one. */
  lemma LowerEmptyIff(s: string)
    ensures Lower(s) == [] <==> s == []
  {
  }

  /** `needle` occurs in `hay` starting at index `i`. */
  ghost predicate OccursAt(hay: string, needle: string, i: nat)
  {
    i + |needle| <= |hay| && hay[i..i + |needle|] == needle
  }

  /** Python's `needle in hay` for two strings. */
  predicate Contains(hay: string, needle: string): (found: bool)
    ensures found ==> |needle| <= |hay|
    ensures needle == [] ==> found
  {
    needle <= hay || (hay != [] && Contains(hay[1..], needle))
  }

  /** An occurrence at the start is a prefix. */
  lemma OccursAtStart(hay: string, needle: string)
    ensures OccursAt(hay, needle, 0) <==> needle <= hay
  {
  }

  /** Occurrences in the tail are the occurrences one place further on. */
  lemma OccursAtShift(hay: string, needle: string, i: nat)
    requires hay != []
    ensures OccursAt(hay[1..], needle, i) <==> OccursAt(hay, needle, i + 1)
  {
    if i + |needle| <= |hay[1..]| {
      assert hay[1..][i..i + |needle|] == hay[i + 1..i + 1 + |needle|];
    }
  }

  /** `Contains` holds exactly when the needle occurs at some index of the haystack. */
  lemma {:induction false} ContainsIff(hay: string, needle: string)
    ensures Contains(hay, needle) <==> exists i: nat :: i <= |hay| && OccursAt(hay, needle, i)
  {
    OccursAtStart(hay, needle);
    if needle <= hay {
    } else if hay == [] {
      forall i: nat | i <= |hay| ensures !OccursAt(hay, needle, i) {
      }
    } else {
      ContainsIff(hay[1..], needle);
      if Contains(hay[1..], needle) {
        var i: nat :| i <= |hay[1..]| && OccursAt(hay[1..], needle, i);
        OccursAtShift(hay, needle, i);
      } else {
        forall i: nat | i <= |hay| ensures !OccursAt(hay, needle, i) {
          if i > 0 {
            OccursAtShift(hay, needle, i - 1);
          }
        }
      }
    }
  }

  /** The empty text is in every text. */
  lemma ContainsEmpty(hay: string)
    ensures Contains(hay, [])
  {
  }

  /** A text found in a part of a concatenation is found in the whole. */
  lemma ContainsInConcat(a: string, b: string, needle: string)
    ensures Contains(a, needle) ==> Contains(a + b, needle)
    ensures Contains(b, needle) ==> Contains(a + b, needle)
  {
    ContainsIff(a, needle);
    ContainsIff(b, needle);
    ContainsIff(a + b, needle);
    if Contains(a, needle) {
      var i: nat :| i <= |a| && OccursAt(a, needle, i);
      assert (a + b)[i..i + |needle|] == a[i..i + |needle|];
      assert OccursAt(a + b, needle, i);
    }
    if Contains(b, needle) {
      var i: nat :| i <= |b| && OccursAt(b, needle, i);
      assert (a + b)[|a| + i..|a| + i + |needle|] == b[i..i + |needle|];
      assert OccursAt(a + b, needle, |a| + i);
    }
  }

  /**
   * Python's `s.replace(c, '')` for a one-character `c`: every `c` goes and
   * every other character stays, as often as it occurs in `s`.
   */
  function RemoveChar(s: string, c: char): (r: string)
    ensures |r| <= |s|
    ensures forall x :: x in r <==> x in s && x != c
  {
    if s == [] then []
    else if s[|s| - 1] == c then RemoveChar(s[..|s| - 1], c)
    else RemoveChar(s[..|s| - 1], c) + [s[|s| - 1]]
  }

  /** `RemoveChar` keeps every other character as often as it occurs. */
  lemma {:induction false} RemoveCharCounts(s: string, c: char)
    ensures multiset(RemoveChar(s, c)) == multiset(s)[c := 0]
  {
    if s != [] {
      var init, x := s[..|s| - 1], s[|s| - 1];
      RemoveCharCounts(init, c);
      assert s == init + [x];
    }
  }

  /** Removing from a text extended by one character. */
  lemma {:induction false} RemoveCharSnoc(s: string, x: char, c: char)
    ensures RemoveChar(s + [x], c) == RemoveChar(s, c) + (if x == c then [] else [x])
  {
    assert (s + [x])[..|s|] == s;
  }

  /** Removal works piece by piece, so the kept characters stay in order. */
  lemma {:induction false} RemoveCharConcat(a: string, b: string, c: char)
    ensures RemoveChar(a + b, c) == RemoveChar(a, c) + RemoveChar(b, c)
  {
    if b == [] {
      assert a + b == a;
    } else {
      var init, last := b[..|b| - 1], b[|b| - 1];
      RemoveCharConcat(a, init, c);
      assert a + b == (a + init) + [last];
      assert b == init + [last];
      RemoveCharSnoc(a + init, last, c);
      RemoveCharSnoc(init, last, c);
    }
  }

  /** A text that does not hold the character is left as it is. */
  lemma {:induction false} RemoveCharAbsent(s: string, c: char)
    requires c !in s
    ensures RemoveChar(s, c) == s
  {
    if s != [] {
      assert s == s[..|s| - 1] + [s[|s| - 1]];
      RemoveCharAbsent(s[..|s| - 1], c);
    }
  }

  /**
   * Python's `s.replace(pat, '')`: occurrences of `pat` are found left to right
   * without overlapping and removed.
   */
  function RemoveAll(s: string, pat: string): (r: string)
    requires pat != []
    ensures |r| <= |s|
    decreases |s|
  {
    if |s| < |pat| then s
    else if pat <= s then RemoveAll(s[|pat|..], pat)
    else [s[0]] + RemoveAll(s[1..], pat)
  }

  /**
   * A text that does not hold the pattern's first character is kept, and so
   * is the text followed by one copy of the pattern with that copy removed.
   */
  lemma {:induction false} RemoveAllTrailing(d: string, pat: string)
    requires pat != [] && pat[0] !in d
    ensures RemoveAll(d, pat) == d
    ensures RemoveAll(d + pat, pat) == d
    decreases |d|
  {
    FirstCharAbsent(d, pat);
    RemoveAllAbsent(d, pat);
    if d == [] {
      assert [] + pat == pat;
      assert pat[|pat|..] == [];
    } else {
      NoFirstCharInTail(d, pat[0]);
      RemoveAllTrailing(d[1..], pat);
      assert d + pat == d + pat + [] && d[1..] + pat == d[1..] + pat + [];
      assert (d + pat)[0] != pat[0];
      RemoveAllSkip(d, [], pat);
    }
  }

  /** A text that does not hold the pattern's first character does not hold the pattern. */
  lemma {:induction false} FirstCharAbsent(d: string, pat: string)
    requires pat != [] && pat[0] !in d
    ensures !Contains(d, pat)
    decreases |d|
  {
    if d != [] {
      NoFirstCharInTail(d, pat[0]);
      FirstCharAbsent(d[1..], pat);
      assert d[0] != pat[0];
    }
  }

  /** A character missing from a text is missing from its tail. */
  lemma NoFirstCharInTail(d: string, c: char)
    requires d != [] && c !in d
    ensures c !in d[1..]
  {
    var t := d[1..];
    forall k | 0 <= k < |t| ensures t[k] != c {
      assert t[k] == d[k + 1];
    }
  }

  /**
   * The first occurrence of `pat` goes, everything before it stays, and the
   * search goes on after it: `a` together with all of `pat` but its last
   * character holds no occurrence, so the one right after `a` is the first.
   */
  lemma {:induction false} RemoveAllFirst(a: string, b: string, pat: string)
    requires pat != [] && !Contains(a + pat[..|pat| - 1], pat)
    ensures RemoveAll(a + pat + b, pat) == a + RemoveAll(b, pat)
    decreases |a|
  {
    if a == [] {
      assert a + pat + b == pat + b && (pat + b)[|pat|..] == b;
    } else {
      PatternNotAtStart(a, b, pat);
      RemoveAllFirst(a[1..], b, pat);
      RemoveAllSkip(a, b, pat);
    }
  }

  /** A text that does not start with `pat` keeps its first character. */
  lemma {:induction false} RemoveAllSkip(a: string, b: string, pat: string)
    requires pat != [] && a != [] && !(pat <= a + pat + b)
    requires RemoveAll(a[1..] + pat + b, pat) == a[1..] + RemoveAll(b, pat)
    ensures RemoveAll(a + pat + b, pat) == a + RemoveAll(b, pat)
  {
    var s := a + pat + b;
    assert s[1..] == a[1..] + pat + b;
    RemoveAllStep(s, pat);
    ConsOnto(a, RemoveAll(b, pat));
  }

  /** One step of `replace`: a text that does not start with `pat` keeps its first character. */
  lemma RemoveAllStep(s: string, pat: string)
    requires pat != [] && |s| >= |pat| && !(pat <= s)
    ensures RemoveAll(s, pat) == [s[0]] + RemoveAll(s[1..], pat)
  {
  }

  /** Putting the first character back in front. */
  lemma ConsOnto(a: string, rest: string)
    requires a != []
    ensures a + rest == [a[0]] + (a[1..] + rest)
  {
  }

  /**
   * When `a` is not empty and `a` with all of `pat` but its last character holds
   * no occurrence, the joined text does not start with `pat`, and dropping the
   * first character of `a` keeps the occurrence out.
   */
  lemma {:induction false} PatternNotAtStart(a: string, b: string, pat: string)
    requires pat != [] && a != [] && !Contains(a + pat[..|pat| - 1], pat)
    ensures !(pat <= a + pat + b)
    ensures !Contains(a[1..] + pat[..|pat| - 1], pat)
  {
    var hay := a + pat[..|pat| - 1];
    assert hay != [];
    assert !(pat <= hay);
    assert !Contains(hay[1..], pat);
    var s := a + pat + b;
    assert forall k :: 0 <= k < |pat| ==> s[k] == hay[k];
    assert hay[1..] == a[1..] + pat[..|pat| - 1];
  }

  /** A text in which `pat` does not occur is left as it is. */
  lemma {:induction false} RemoveAllAbsent(s: string, pat: string)
    requires pat != [] && !Contains(s, pat)
    ensures RemoveAll(s, pat) == s
    decreases |s|
  {
    if |s| >= |pat| {
      RemoveAllAbsent(s[1..], pat);
      assert s == [s[0]] + s[1..];
    }
  }

  /** An ASCII decimal digit. */
  predicate IsDigit(c: char)
  {
    '0' <= c <= '9'
  }

  predicate AllDigits(s: string)
  {
    forall i :: 0 <= i < |s| ==> IsDigit(s[i])
  }

  /** The value of a run of decimal digits; the empty run is worth 0. */
  function DigitsValue(s: string): (n: nat)
    requires AllDigits(s)
    ensures |s| == 0 ==> n == 0
    ensures n < Pow10(|s|)
  {
    if s == [] then 0
    else DigitsValue(s[..|s| - 1]) * 10 + (s[|s| - 1] as int - '0' as int)
  }

  function Pow10(k: nat): (p: nat)
    ensures p >= 1
  {
    if k == 0 then 1 else 10 * Pow10(k - 1)
  }

  /** Index of the first `.` in `s`, or `|s|` when there is none. */
  function DotIndex(s: string): (k: nat)
    ensures k <= |s|
    ensures k < |s| ==> s[k] == '.'
    ensures forall i :: 0 <= i < k ==> s[i] != '.'
  {
    if s == [] then 0
    else if s[0] == '.' then 0
    else 1 + DotIndex(s[1..])
  }

  /**
   * Python's `s.replace('.', '', 1).isdigit() and s.count('.') < 2`, for ASCII
   * digits: digits with at most one point, and at least one digit.
   */
  predicate IsDecimal(s: string): (ok: bool)
    ensures ok ==> exists i :: 0 <= i < |s| && IsDigit(s[i])
    ensures AllDigits(s) ==> (ok <==> s != [])
  {
    var k := DotIndex(s);
    var ok := AllDigits(s[..k]) && (k == |s| || AllDigits(s[k + 1..])) && |s| > (if k < |s| then 1 else 0);
    if ok then assert IsDigit(s[if k == 0 then 1 else 0]); ok else ok
  }

  /** The exact value of a decimal text: whole part plus fraction. */
  function DecimalValue(s: string): (v: real)
    requires IsDecimal(s)
    ensures v >= 0.0
  {
    var k := DotIndex(s);
    if k == |s| then DigitsValue(s) as real
    else DigitsValue(s[..k]) as real + DigitsValue(s[k + 1..]) as real / Pow10(|s| - k - 1) as real
  }

  /** Python's `float(s)` for decimal text; `None` stands for the text it cannot read. */
  function ParseDecimal(s: string): (r: Option<real>)
    ensures r.Some? <==> IsDecimal(s)
    ensures r.Some? ==> r.value >= 0.0
  {
    if IsDecimal(s) then Some(DecimalValue(s)) else None
  }

  /** Python's `s.replace(c, '', 1)`: the first `c`, if any, removed. */
  function RemoveFirst(s: string, c: char): (r: string)
    ensures |r| == if c in s then |s| - 1 else |s|
  {
    if s == [] then []
    else if s[0] == c then s[1..]
    else [s[0]] + RemoveFirst(s[1..], c)
  }

  /** Python's `s.count(c)`. */
  function CountChar(s: string, c: char): (n: nat)
    ensures n <= |s|
    ensures n == 0 <==> c !in s
  {
    multiset(s)[c]
  }

  /** Removing the first point cuts the text at `DotIndex`. */
  lemma {:induction false} RemoveFirstPoint(s: string)
    ensures RemoveFirst(s, '.') == if DotIndex(s) < |s| then s[..DotIndex(s)] + s[DotIndex(s) + 1..] else s
  {
    if s != [] && s[0] != '.' {
      var tail := s[1..];
      RemoveFirstPoint(tail);
      assert RemoveFirst(s, '.') == [s[0]] + RemoveFirst(tail, '.');
      assert DotIndex(s) == DotIndex(tail) + 1;
      if DotIndex(tail) < |tail| {
        ConsCut(s, DotIndex(tail));
      } else {
        assert [s[0]] + tail == s;
      }
    }
  }

  /** Cutting the character at `k` out of the tail, then putting the head back. */
  lemma ConsCut(s: string, k: nat)
    requires k + 1 < |s|
    ensures [s[0]] + (s[1..][..k] + s[1..][k + 1..]) == s[..k + 1] + s[k + 2..]
  {
    assert s[1..][..k] == s[1..k + 1] && s[1..][k + 1..] == s[k + 2..];
    assert [s[0]] + s[1..k + 1] == s[..k + 1];
  }

  /**
   * The text `apply_filters` accepts as a maximum price is exactly the text
   * that is all digits once its first point is removed, is not empty then, and
   * holds fewer than two points.
   */
  lemma {:induction false} DecimalTextIff(s: string)
    ensures IsDecimal(s) <==>
      var t := RemoveFirst(s, '.');
      t != [] && AllDigits(t) && CountChar(s, '.') < 2
  {
    RemoveFirstPoint(s);
    if DotIndex(s) < |s| {
      DecimalTextIffWithPoint(s);
    } else if AllDigits(s) {
      NoPointInDigits(s);
    }
  }

  /** `DecimalTextIff` for a text that holds a point. */
  lemma {:induction false} DecimalTextIffWithPoint(s: string)
    requires DotIndex(s) < |s|
    ensures var k := DotIndex(s); var a, b := s[..k], s[k + 1..];
      && (IsDecimal(s) <==> a + b != [] && AllDigits(a + b))
      && (AllDigits(a + b) ==> CountChar(s, '.') == 1)
  {
    var k := DotIndex(s);
    var a, b := s[..k], s[k + 1..];
    AllDigitsConcat(a, b);
    if AllDigits(a) && AllDigits(b) {
      NoPointInDigits(a);
      NoPointInDigits(b);
      assert s == a + [s[k]] + b;
      assert multiset(s) == multiset(a) + multiset{'.'} + multiset(b);
    }
  }

  /** Digits and a concatenation. */
  lemma {:induction false} AllDigitsConcat(a: string, b: string)
    ensures AllDigits(a + b) <==> AllDigits(a) && AllDigits(b)
  {
    if AllDigits(a + b) {
      assert forall i :: 0 <= i < |a| ==> a[i] == (a + b)[i];
      assert forall i :: 0 <= i < |b| ==> b[i] == (a + b)[|a| + i];
    }
  }

  /** A run of digits holds no point. */
  lemma {:induction false} NoPointInDigits(s: string)
    requires AllDigits(s)
    ensures CountChar(s, '.') == 0
  {
    assert '.' !in s by {
      forall i | 0 <= i < |s| ensures s[i] != '.' { assert IsDigit(s[i]); }
    }
  }

  /** Reading digits written one after the other. */
  lemma {:induction false} DigitsValueConcat(a: string, b: string)
    requires AllDigits(a) && AllDigits(b)
    ensures AllDigits(a + b)
    ensures DigitsValue(a + b) == DigitsValue(a) * Pow10(|b|) + DigitsValue(b)
  {
    AllDigitsConcat(a, b);
    if b == [] {
      assert a + b == a;
    } else {
      var init := b[..|b| - 1];
      AllDigitsConcat(init, [b[|b| - 1]]);
      assert b == init + [b[|b| - 1]];
      DigitsValueConcat(a, init);
      assert (a + b)[..|a + b| - 1] == a + init;
      var d := b[|b| - 1] as int - '0' as int;
      var x, p, y := DigitsValue(a), Pow10(|init|), DigitsValue(init);
      assert DigitsValue(b) == y * 10 + d;
      assert Pow10(|b|) == p * 10;
      assert DigitsValue(a + b) == (x * p + y) * 10 + d;
      ShiftDigit(x, p, y);
    }
  }

  /** One more digit on the right: ten times the value so far. */
  lemma ShiftDigit(x: int, p: int, y: int)
    ensures (x * p + y) * 10 == x * (p * 10) + y * 10
  {
  }

  /** The number of digits after the point; 0 when there is no point. */
  function FractionDigits(s: string): nat
  {
    if DotIndex(s) < |s| then |s| - DotIndex(s) - 1 else 0
  }

  /**
   * A decimal text reads as the number its digits spell with the point left
   * out, divided by ten for each digit after the point.
   */
  lemma {:induction false} DecimalTextValue(s: string)
    requires IsDecimal(s)
    ensures AllDigits(RemoveFirst(s, '.'))
    ensures ParseDecimal(s) == Some(DigitsValue(RemoveFirst(s, '.')) as real / Pow10(FractionDigits(s)) as real)
  {
    RemoveFirstPoint(s);
    if DotIndex(s) < |s| {
      PointedDecimalText(s);
    } else {
      WholeDecimalText(s);
    }
  }

  /** `DecimalTextValue` for a text without a point: its digits' value over 1. */
  lemma {:induction false} WholeDecimalText(s: string)
    requires IsDecimal(s) && DotIndex(s) == |s| && RemoveFirst(s, '.') == s
    ensures AllDigits(s) && FractionDigits(s) == 0
    ensures ParseDecimal(s) == Some(DigitsValue(s) as real / Pow10(0) as real)
  {
    assert Pow10(0) == 1;
    WholeOverOne(DigitsValue(s));
  }

  /** Dividing by one leaves a number as it is. */
  lemma WholeOverOne(n: nat)
    ensures n as real / 1 as real == n as real
  {
  }

  /** `DecimalTextValue` for a text with a point, in terms of the two digit runs. */
  lemma {:induction false} PointedDecimalText(s: string)
    requires IsDecimal(s) && DotIndex(s) < |s|
    requires RemoveFirst(s, '.') == s[..DotIndex(s)] + s[DotIndex(s) + 1..]
    ensures AllDigits(RemoveFirst(s, '.'))
    ensures ParseDecimal(s) == Some(DigitsValue(RemoveFirst(s, '.')) as real / Pow10(FractionDigits(s)) as real)
  {
    var k := DotIndex(s);
    var a, b := s[..k], s[k + 1..];
    PointedDecimalValue(s);
    assert FractionDigits(s) == |b|;
    assert ParseDecimal(s) == Some(DigitsValue(a + b) as real / Pow10(|b|) as real);
  }

  /** `DecimalTextValue` for a text that holds a point. */
  lemma {:induction false} PointedDecimalValue(s: string)
    requires IsDecimal(s) && DotIndex(s) < |s|
    ensures var k := DotIndex(s); var a, b := s[..k], s[k + 1..];
      && AllDigits(a + b)
      && DecimalValue(s) == DigitsValue(a + b) as real / Pow10(|b|) as real
  {
    var k := DotIndex(s);
    var a, b := s[..k], s[k + 1..];
    DigitsValueConcat(a, b);
    ScaleFraction(DigitsValue(a + b), DigitsValue(a), DigitsValue(b), Pow10(|b|));
  }

  /** Whole part plus fraction, over a common denominator. */
  lemma ScaleFraction(n: int, w: int, f: int, p: int)
    requires p > 0 && n == w * p + f
    ensures n as real / p as real == w as real + f as real / p as real
  {
  }

  /** A run of digits reads as its integer value. */
  lemma {:induction false} ParseDigits(s: string)
    requires s != [] && AllDigits(s)
    ensures ParseDecimal(s) == Some(DigitsValue(s) as real)
  {
    assert forall i :: 0 <= i < |s| ==> s[i] != '.' by {
      forall i | 0 <= i < |s| ensures s[i] != '.' { assert IsDigit(s[i]); }
    }
  }

  /** The decimal digits of `s`, in order. */
  function DigitRun(s: string): (r: string)
    ensures AllDigits(r)
    ensures |r| <= |s|
  {
    if s == [] then []
    else DigitRun(s[..|s| - 1]) + (if IsDigit(s[|s| - 1]) then [s[|s| - 1]] else [])
  }

  /** Money as people type it: digits, dollar signs and thousands commas. */
  ghost predicate IsMoneyText(s: string)
  {
    forall i :: 0 <= i < |s| ==> IsDigit(s[i]) || s[i] == '$' || s[i] == ','
  }

  /** Dropping the dollar signs and commas of money text leaves its digits. */
  lemma {:induction false} MoneyTextDigits(s: string)
    requires IsMoneyText(s)
    ensures RemoveChar(RemoveChar(s, '$'), ',') == DigitRun(s)
  {
    if s != [] {
      var init, x := s[..|s| - 1], s[|s| - 1];
      assert IsMoneyText(init) by {
        forall i | 0 <= i < |init| ensures IsDigit(init[i]) || init[i] == '$' || init[i] == ',' {
          assert init[i] == s[i];
        }
      }
      MoneyTextDigits(init);
      assert s == init + [x];
      MoneyCharDropped(init, x);
      DigitRunSnoc(init, x);
    }
  }

  /** One more money character: `$` and `,` go, a digit stays. */
  lemma {:induction false} MoneyCharDropped(init: string, x: char)
    requires IsDigit(x) || x == '$' || x == ','
    ensures RemoveChar(RemoveChar(init + [x], '$'), ',')
         == RemoveChar(RemoveChar(init, '$'), ',') + (if IsDigit(x) then [x] else [])
  {
    RemoveCharSnoc(init, x, '$');
    var tail: string := if x == '$' then [] else [x];
    RemoveCharConcat(RemoveChar(init, '$'), tail, ',');
    assert RemoveChar(tail, ',') == if IsDigit(x) then [x] else [];
  }

  /** One more character extends the digit run exactly when it is a digit. */
  lemma {:induction false} DigitRunSnoc(init: string, x: char)
    ensures DigitRun(init + [x]) == DigitRun(init) + (if IsDigit(x) then [x] else [])
  {
    assert (init + [x])[..|init|] == init;
  }
}
