/** Text operations behind the C library calls the correlation core relies on:
    strcasecmp (tag names), strstr and str_replace (macro placeholders),
    str_replace_all with " " and "" (space stripping) and the "%d" conversion
    of snprintf. Strings are sequences of characters; there is no terminating NUL. */
module Strings {

  // ---------------------------------------------------------------------------
  // Case-insensitive comparison (strcasecmp in the C locale)
  // ---------------------------------------------------------------------------

  /** tolower() in the C locale: only 'A'..'Z' change. */
  function Lower(c: char): char
  {
    if 'A' <= c <= 'Z' then (c as int + 32) as char else c
  }

  function LowerAll(s: string): string
  {
    seq(|s|, i requires 0 <= i < |s| => Lower(s[i]))
  }

  /** strcasecmp(a, b) == 0: walks both strings in step and stops at the
      first pair of characters that differ after lower-casing. */
  predicate SameIgnoringCase(a: string, b: string)
    decreases |a|
  {
    if a == [] || b == [] then a == b
    else Lower(a[0]) == Lower(b[0]) && SameIgnoringCase(a[1..], b[1..])
  }

  /** The character walk agrees with comparing the lower-cased strings. */
  lemma {:induction false} SameIgnoringCaseIff(a: string, b: string)
    ensures SameIgnoringCase(a, b) <==> LowerAll(a) == LowerAll(b)
    decreases |a|
  {
    if a == [] || b == [] {
      assert |LowerAll(a)| == |a| && |LowerAll(b)| == |b|;
    } else {
      SameIgnoringCaseIff(a[1..], b[1..]);
      assert LowerAll(a) == [Lower(a[0])] + LowerAll(a[1..]);
      assert LowerAll(b) == [Lower(b[0])] + LowerAll(b[1..]);
      if LowerAll(a) == LowerAll(b) {
        assert LowerAll(a)[1..] == LowerAll(a[1..]);
        assert LowerAll(b)[1..] == LowerAll(b[1..]);
      }
    }
  }

  // ---------------------------------------------------------------------------
  // Decimal text ("%d")
  // ---------------------------------------------------------------------------

  predicate IsDigit(c: char)
  {
    '0' <= c <= '9'
  }

  predicate IsDigits(s: string)
  {
    forall c :: c in s ==> IsDigit(c)
  }

  function Digit(d: nat): char
    requires d < 10
  {
    ('0' as int + d) as char
  }

  /** The decimal text of a natural number, without leading zeros. */
  function NatToDecimal(n: nat): (r: string)
    ensures r != [] && IsDigits(r)
    ensures |r| > 1 ==> r[0] != '0'
    decreases n
  {
    if n < 10 then [Digit(n)] else NatToDecimal(n / 10) + [Digit(n % 10)]
  }

  /** The value of a string of decimal digits, the inverse of NatToDecimal. */
  function DecimalValue(s: string): nat
    requires IsDigits(s)
    decreases |s|
  {
    if s == [] then 0
    else
      assert s[|s| - 1] in s;
      DecimalValue(s[..|s| - 1]) * 10 + (s[|s| - 1] as int - '0' as int)
  }

  lemma {:induction false} DecimalRoundTrip(n: nat)
    ensures DecimalValue(NatToDecimal(n)) == n
    decreases n
  {
    if n >= 10 {
      DecimalRoundTrip(n / 10);
      var s := NatToDecimal(n);
      assert s[..|s| - 1] == NatToDecimal(n / 10);
    }
  }

  function Pow10(k: nat): nat
  {
    if k == 0 then 1 else 10 * Pow10(k - 1)
  }

  /** A number below 10^k needs at most k digits. */
  lemma {:induction false} DecimalWidth(n: nat, k: nat)
    requires 1 <= k && n < Pow10(k)
    ensures |NatToDecimal(n)| <= k
    decreases k
  {
    if n >= 10 {
      assert k >= 2;
      DecimalWidth(n / 10, k - 1);
    }
  }

  /** "%d" applied to a C int. */
  function IntToDecimal(x: int): (r: string)
  {
    if x < 0 then "-" + NatToDecimal(-x) else NatToDecimal(x)
  }

  /** "%d" text starts with '-' exactly for negative values. */
  lemma SignOfDecimal(x: int)
    ensures IntToDecimal(x) != [] && (IntToDecimal(x)[0] == '-' <==> x < 0)
  {
    if x >= 0 {
      assert NatToDecimal(x)[0] in NatToDecimal(x);
    }
  }

  /** Two ints print the same "%d" text only when they are equal. */
  lemma IntToDecimalInjective(x: int, y: int)
    ensures IntToDecimal(x) == IntToDecimal(y) ==> x == y
  {
    if IntToDecimal(x) == IntToDecimal(y) {
      SignOfDecimal(x);
      SignOfDecimal(y);
      if x < 0 {
        assert NatToDecimal(-x) == IntToDecimal(x)[1..] == NatToDecimal(-y);
        DecimalRoundTrip(-x);
        DecimalRoundTrip(-y);
      } else {
        DecimalRoundTrip(x);
        DecimalRoundTrip(y);
      }
    }
  }

  /** Splitting at the first separator is unique when the heads do not contain it. */
  lemma SplitAtSeparator(x: string, y: string, x': string, y': string, sep: char)
    requires sep !in x && sep !in x'
    requires x + [sep] + y == x' + [sep] + y'
    ensures x == x' && y == y'
  {
    var s := x + [sep] + y;
    assert s[|x|] == sep && s[|x'|] == sep;
    assert forall i :: 0 <= i < |x| ==> s[i] == x[i];
    assert forall i :: 0 <= i < |x'| ==> s[i] == x'[i];
    assert |x| == |x'|;
    assert x == s[..|x|] == x';
    assert y == s[|x| + 1..] == y';
  }

  // ---------------------------------------------------------------------------
  // Searching and replacing (strstr, str_replace, str_replace_all)
  // ---------------------------------------------------------------------------

  predicate OccursAt(s: string, pat: string, i: int)
  {
    0 <= i && i + |pat| <= |s| && s[i..i + |pat|] == pat
  }

  /** No occurrence of pat anywhere in s. */
  ghost predicate Absent(s: string, pat: string)
  {
    forall i :: !OccursAt(s, pat, i)
  }

  /** pat occurs in s at most once. */
  ghost predicate AtMostOnce(s: string, pat: string)
  {
    forall i, j :: OccursAt(s, pat, i) && OccursAt(s, pat, j) ==> i == j
  }

  lemma OccursAtTail(s: string, pat: string, i: int)
    requires s != [] && 1 <= i
    ensures OccursAt(s, pat, i) <==> OccursAt(s[1..], pat, i - 1)
  {
    if i + |pat| <= |s| {
      assert s[1..][i - 1..i - 1 + |pat|] == s[i..i + |pat|];
    }
  }

  /** strstr: the index of the first occurrence of pat in s, or -1. */
  function IndexOf(s: string, pat: string): (r: int)
    ensures r == -1 || OccursAt(s, pat, r)
    ensures r == -1 ==> Absent(s, pat)
    ensures forall j :: 0 <= j < r ==> !OccursAt(s, pat, j)
    decreases |s|
  {
    if |s| < |pat| then -1
    else if s[..|pat|] == pat then 0
    else
      var r := IndexOf(s[1..], pat);
      assert !OccursAt(s, pat, 0);
      assert forall i :: 1 <= i ==> (OccursAt(s, pat, i) <==> OccursAt(s[1..], pat, i - 1)) by {
        forall i | 1 <= i ensures OccursAt(s, pat, i) <==> OccursAt(s[1..], pat, i - 1) {
          OccursAtTail(s, pat, i);
        }
      }
      if r == -1 then -1 else r + 1
  }

  /** str_replace: replaces the first occurrence of pat, if any, by rep. */
  function ReplaceFirst(s: string, pat: string, rep: string): string
  {
    var i := IndexOf(s, pat);
    if i == -1 then s else s[..i] + rep + s[i + |pat|..]
  }

  /** str_replace_all(s, " ", ""): every space character removed, the rest kept in order. */
  function StripSpaces(s: string): (r: string)
    ensures ' ' !in r
    ensures forall c :: c in r <==> c in s && c != ' '
    ensures |r| <= |s|
    ensures ' ' !in s ==> r == s
    decreases |s|
  {
    if s == [] then []
    else (if s[0] == ' ' then [] else [s[0]]) + StripSpaces(s[1..])
  }

  /** Removing spaces from a concatenation removes them from each part; with
      StripSpacesChar this fixes the result character by character, so the
      characters kept stay in order and keep their multiplicity. */
  lemma {:induction false} StripSpacesAppend(a: string, b: string)
    ensures StripSpaces(a + b) == StripSpaces(a) + StripSpaces(b)
    decreases |a|
  {
    if a == [] {
      assert a + b == b;
    } else {
      var head: string := if a[0] == ' ' then [] else [a[0]];
      assert (a + b)[0] == a[0] && (a + b)[1..] == a[1..] + b;
      assert StripSpaces(a + b) == head + StripSpaces(a[1..] + b);
      StripSpacesAppend(a[1..], b);
      assert StripSpaces(a) == head + StripSpaces(a[1..]);
    }
  }

  /** A single character is dropped when it is a space and kept otherwise. */
  lemma StripSpacesChar(c: char)
    ensures StripSpaces([c]) == (if c == ' ' then [] else [c])
  {
    assert [c][1..] == [];
  }

  /** segs[0] + words[0] + segs[1] + ... + words[n - 1] + segs[n]: a text cut
      into the words of interest and the segments between them. */
  function Interleave(segs: seq<string>, words: seq<string>): string
    requires |segs| == |words| + 1
    decreases |words|
  {
    if words == [] then segs[0] else segs[0] + words[0] + Interleave(segs[1..], words[1..])
  }

  /** Two words between three segments. */
  lemma InterleaveTwo(a: string, b: string, c: string, x: string, y: string)
    ensures Interleave([a, b, c], [x, y]) == a + x + b + y + c
  {
    assert [a, b, c][1..] == [b, c] && [b, c][1..] == [c];
    assert [x, y][1..] == [y] && [y][1..] == [];
    assert Interleave([c], []) == c;
    assert Interleave([b, c], [y]) == b + y + c;
    assert Interleave([a, b, c], [x, y]) == a + x + (b + y + c);
  }

  /** The i-th word of an interleaving stands between the text before it and
      the text after it. */
  lemma {:induction false} InterleaveAt(segs: seq<string>, words: seq<string>, i: nat)
    requires |segs| == |words| + 1 && i < |words|
    ensures Interleave(segs, words) ==
            Interleave(segs[..i + 1], words[..i]) + words[i] + Interleave(segs[i + 1..], words[i + 1..])
    decreases i
  {
    if i == 0 {
      assert words[..0] == [];
      assert segs[..1] == [segs[0]];
    } else {
      InterleaveAt(segs[1..], words[1..], i - 1);
      assert segs[..i + 1][1..] == segs[1..][..i];
      assert words[..i][1..] == words[1..][..i - 1];
      assert segs[1..][i..] == segs[i + 1..];
      assert words[1..][i..] == words[i + 1..];
    }
  }

  // ---------------------------------------------------------------------------
  // What a replacement does to the occurrences of another pattern
  // ---------------------------------------------------------------------------

  /** No character of w occurs in p. */
  predicate Disjoint(p: string, w: string)
  {
    forall c :: c in w ==> c !in p
  }

  /** An occurrence of q that overlaps the middle piece w shares a character with w. */
  lemma OverlapSharesChar(a: string, w: string, b: string, q: string, j: int)
    requires w != [] && q != []
    ensures OccursAt(a + w + b, q, j) && |a| < j + |q| && j < |a| + |w| ==>
            exists c :: c in q && c in w
  {
    if OccursAt(a + w + b, q, j) && |a| < j + |q| && j < |a| + |w| {
      var s := a + w + b;
      var k := if j < |a| then |a| else j;
      assert s[k] == s[j..j + |q|][k - j] == q[k - j];
      assert s[k] == w[k - |a|];
      assert q[k - j] in q && w[k - |a|] in w;
    }
  }

  /** When q shares no character with w, every occurrence of q in a + w + b
      lies wholly inside a or wholly inside b. */
  lemma LocateOccurrence(a: string, w: string, b: string, q: string, j: int)
    requires w != [] && q != [] && Disjoint(q, w)
    ensures OccursAt(a + w + b, q, j) ==>
            (j + |q| <= |a| && OccursAt(a, q, j)) ||
            (j >= |a| + |w| && OccursAt(b, q, j - |a| - |w|))
  {
    OverlapSharesChar(a, w, b, q, j);
    var s := a + w + b;
    if OccursAt(s, q, j) {
      if j + |q| <= |a| {
        assert s[j..j + |q|] == a[j..j + |q|];
      } else if j >= |a| + |w| {
        var k := j - |a| - |w|;
        assert s[j..j + |q|] == b[k..k + |q|];
      }
    }
  }

  /** Where an occurrence at index j of the replaced text came from in the original. */
  function Origin(s: string, p: string, v: string, j: int): int
  {
    var i := IndexOf(s, p);
    if i == -1 || j < i then j else j - |v| + |p|
  }

  /** Replacing the first p by v creates no occurrence of a pattern q that
      shares no character with v: each one comes from an occurrence in s that
      lies before or after the replaced p. */
  lemma OccurrenceSurvives(s: string, p: string, v: string, q: string, j: int)
    requires v != [] && q != [] && Disjoint(q, v)
    ensures OccursAt(ReplaceFirst(s, p, v), q, j) ==> OccursAt(s, q, Origin(s, p, v, j))
    ensures OccursAt(ReplaceFirst(s, p, v), q, j) && IndexOf(s, p) != -1 ==>
            j + |q| <= IndexOf(s, p) || j >= IndexOf(s, p) + |v|
  {
    var i := IndexOf(s, p);
    if i != -1 {
      var a, b := s[..i], s[i + |p|..];
      assert s == a + p + b;
      LocateOccurrence(a, v, b, q, j);
      if OccursAt(a + v + b, q, j) {
        if j + |q| <= |a| {
          assert s[j..j + |q|] == a[j..j + |q|];
        } else {
          var k := j - |a| - |v|;
          assert s[i + |p| + k..i + |p| + k + |q|] == b[k..k + |q|];
        }
      }
    }
  }

  lemma ReplaceFirstKeepsAbsent(s: string, p: string, v: string, q: string)
    requires v != [] && q != [] && Disjoint(q, v)
    requires Absent(s, q)
    ensures Absent(ReplaceFirst(s, p, v), q)
  {
    forall j ensures !OccursAt(ReplaceFirst(s, p, v), q, j) {
      OccurrenceSurvives(s, p, v, q, j);
    }
  }

  lemma ReplaceFirstKeepsAtMostOnce(s: string, p: string, v: string, q: string)
    requires v != [] && q != [] && Disjoint(q, v)
    requires AtMostOnce(s, q)
    ensures AtMostOnce(ReplaceFirst(s, p, v), q)
  {
    var r := ReplaceFirst(s, p, v);
    forall j1, j2 | OccursAt(r, q, j1) && OccursAt(r, q, j2) ensures j1 == j2 {
      OccurrenceSurvives(s, p, v, q, j1);
      OccurrenceSurvives(s, p, v, q, j2);
    }
  }

  /** A pattern that occurs at most once is gone after its first occurrence is replaced. */
  lemma ReplaceFirstEliminates(s: string, p: string, v: string)
    requires v != [] && p != [] && Disjoint(p, v)
    requires AtMostOnce(s, p)
    ensures Absent(ReplaceFirst(s, p, v), p)
  {
    forall j ensures !OccursAt(ReplaceFirst(s, p, v), p, j) {
      OccurrenceSurvives(s, p, v, p, j);
    }
  }

  /** The single occurrence of p in a + p + b is the one replaced. */
  lemma ReplaceFirstAt(a: string, p: string, b: string, v: string)
    requires AtMostOnce(a + p + b, p)
    ensures ReplaceFirst(a + p + b, p, v) == a + v + b
  {
    var s := a + p + b;
    assert s[|a|..|a| + |p|] == p;
    assert OccursAt(s, p, |a|);
    var i := IndexOf(s, p);
    assert i == |a|;
    assert s[..i] == a && s[i + |p|..] == b;
  }

  /** Replacing a word that occurs once in an interleaving replaces it in place. */
  lemma ReplaceWord(segs: seq<string>, words: seq<string>, i: nat, v: string)
    requires |segs| == |words| + 1 && i < |words|
    requires AtMostOnce(Interleave(segs, words), words[i])
    ensures ReplaceFirst(Interleave(segs, words), words[i], v) == Interleave(segs, words[i := v])
  {
    var words' := words[i := v];
    InterleaveAt(segs, words, i);
    InterleaveAt(segs, words', i);
    assert words'[..i] == words[..i] && words'[i + 1..] == words[i + 1..];
    ReplaceFirstAt(Interleave(segs[..i + 1], words[..i]), words[i], Interleave(segs[i + 1..], words[i + 1..]), v);
  }

  /** The first occurrence is the one replaced, whatever follows it. */
  lemma ReplaceFirstAtFirst(a: string, p: string, rest: string, v: string)
    requires forall j :: 0 <= j < |a| ==> !OccursAt(a + p + rest, p, j)
    ensures ReplaceFirst(a + p + rest, p, v) == a + v + rest
  {
    var s := a + p + rest;
    assert s[|a|..|a| + |p|] == p;
    assert OccursAt(s, p, |a|);
    var i := IndexOf(s, p);
    assert i != -1 && OccursAt(s, p, i);
    assert i == |a|;
    assert s[..i] == a && s[i + |p|..] == rest;
  }

  /** Only the first occurrence is replaced: a later occurrence of the same
      pattern survives, right after the replaced one. */
  lemma ReplaceFirstLeavesLater(a: string, p: string, b: string, c: string, v: string)
    requires forall j :: 0 <= j < |a| ==> !OccursAt(a + p + b + p + c, p, j)
    ensures ReplaceFirst(a + p + b + p + c, p, v) == a + v + b + p + c
    ensures OccursAt(ReplaceFirst(a + p + b + p + c, p, v), p, |a| + |v| + |b|)
  {
    var rest := b + p + c;
    assert a + p + b + p + c == a + p + rest;
    ReplaceFirstAtFirst(a, p, rest, v);
    var r := a + v + rest;
    assert r == a + v + b + p + c;
    assert r[|a| + |v| + |b|..|a| + |v| + |b| + |p|] == p;
  }

  lemma ReplaceFirstNoSpace(s: string, p: string, v: string)
    requires ' ' !in s && ' ' !in v
    ensures ' ' !in ReplaceFirst(s, p, v)
  {
    var i := IndexOf(s, p);
    if i != -1 {
      assert forall c :: c in s[..i] ==> c in s;
      assert forall c :: c in s[i + |p|..] ==> c in s;
    }
  }
}
