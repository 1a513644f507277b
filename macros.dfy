/** Macro substitution in the conditions of an alert's hyperalert
    (_AI_macro_subst): spaces are removed, then each of six placeholders is
    replaced by a value taken from the alert's packet. */
module Macros {
  import opened Strings
  import opened Alerts

  const SRC_ADDR := "+SRC_ADDR+"
  const DST_ADDR := "+DST_ADDR+"
  const ANY_ADDR := "+ANY_ADDR+"
  const SRC_PORT := "+SRC_PORT+"
  const DST_PORT := "+DST_PORT+"
  const ANY_PORT := "+ANY_PORT+"

  /** The placeholders, in the order the substitution tries them. */
  const Placeholders: seq<string> := [SRC_ADDR, DST_ADDR, ANY_ADDR, SRC_PORT, DST_PORT, ANY_PORT]

  /** One substitution: a placeholder and the text that replaces it. */
  datatype Macro = Macro(placeholder: string, value: string)

  /** The substitutions applied to every condition of an alert with packet
      fields f, in the order of correlation.c:65-104: the addresses as
      inet_ntop writes them, the ports as "%d" writes them, and the fixed
      wildcards "0.0.0.0" and "0". */
  function MacroTable(f: Flow): (ms: seq<Macro>)
    ensures |ms| == |Placeholders|
    ensures forall k :: 0 <= k < |ms| ==> ms[k].placeholder == Placeholders[k]
  {
    [ Macro(SRC_ADDR, AddressText(f.srcAddr)),
      Macro(DST_ADDR, AddressText(f.dstAddr)),
      Macro(ANY_ADDR, "0.0.0.0"),
      Macro(SRC_PORT, PortText(f.srcPort)),
      Macro(DST_PORT, PortText(f.dstPort)),
      Macro(ANY_PORT, "0") ]
  }

  /** Apply the substitutions in order, each to the text the previous one left. */
  function Substitute(t: string, ms: seq<Macro>): string
    decreases |ms|
  {
    if ms == [] then t
    else Substitute(ReplaceFirst(t, ms[0].placeholder, ms[0].value), ms[1..])
  }

  /** The text one condition holds after _AI_macro_subst. */
  function ExpandCondition(s: string, f: Flow): string
  {
    Substitute(StripSpaces(s), MacroTable(f))
  }

  /** Placeholder text: upper-case letters, '_' and '+'. */
  predicate IsPlaceholderText(p: string)
  {
    p != [] && forall c :: c in p ==> c == '+' || c == '_' || 'A' <= c <= 'Z'
  }

  /** Every placeholder is placeholder text and every value is non-empty
      numeric text, so no value can contain or complete a placeholder. */
  predicate WellFormed(ms: seq<Macro>)
  {
    forall k :: 0 <= k < |ms| ==>
      IsPlaceholderText(ms[k].placeholder) && ms[k].value != [] && IsNumericText(ms[k].value)
  }

  lemma PlaceholderDisjoint(p: string, w: string)
    requires IsPlaceholderText(p) && IsNumericText(w)
    ensures Disjoint(p, w)
  {
    forall c | c in w ensures c !in p {
      assert IsDigit(c) || c == '.';
    }
  }

  /** The six placeholders are distinct. */
  lemma PlaceholdersDistinct()
    ensures forall j, k :: 0 <= j < k < |Placeholders| ==> Placeholders[j] != Placeholders[k]
  {
    assert Placeholders[0][1] == 'S' && Placeholders[3][1] == 'S';
    assert Placeholders[0][5] == 'A' && Placeholders[3][5] == 'P';
    assert Placeholders[1][1] == 'D' && Placeholders[4][1] == 'D';
    assert Placeholders[1][5] == 'A' && Placeholders[4][5] == 'P';
    assert Placeholders[2][1] == 'A' && Placeholders[5][1] == 'A';
    assert Placeholders[2][5] == 'A' && Placeholders[5][5] == 'P';
  }

  lemma PlaceholderIsText(k: nat)
    requires k < |Placeholders|
    ensures IsPlaceholderText(Placeholders[k])
  {
    var p := Placeholders[k];
    forall c | c in p ensures c == '+' || c == '_' || 'A' <= c <= 'Z' {
      var i :| 0 <= i < |p| && p[i] == c;
    }
  }

  /** The table of any alert is well formed, and its six placeholders are distinct. */
  lemma MacroTableWellFormed(f: Flow)
    ensures WellFormed(MacroTable(f))
    ensures forall j, k :: 0 <= j < k < |MacroTable(f)| ==> MacroTable(f)[j].placeholder != MacroTable(f)[k].placeholder
  {
    PlaceholdersDistinct();
    var ms := MacroTable(f);
    forall k | 0 <= k < |ms|
      ensures IsPlaceholderText(ms[k].placeholder) && ms[k].value != [] && IsNumericText(ms[k].value)
    {
      PlaceholderIsText(k);
      if k == 2 {
        assert forall c :: c in "0.0.0.0" ==> c == '0' || c == '.';
      } else if k == 5 {
        assert forall c :: c in "0" ==> c == '0';
      } else if k == 3 || k == 4 {
        assert IsDigits(ms[k].value);
      }
    }
  }

  // ---------------------------------------------------------------------------
  // Properties of the substitution
  // ---------------------------------------------------------------------------

  lemma {:induction false} SubstituteKeepsNoSpace(t: string, ms: seq<Macro>)
    requires ' ' !in t
    requires forall k :: 0 <= k < |ms| ==> ' ' !in ms[k].value
    ensures ' ' !in Substitute(t, ms)
    decreases |ms|
  {
    if ms != [] {
      ReplaceFirstNoSpace(t, ms[0].placeholder, ms[0].value);
      SubstituteKeepsNoSpace(ReplaceFirst(t, ms[0].placeholder, ms[0].value), ms[1..]);
    }
  }

  /** Text that holds none of the placeholders is left as it is. */
  lemma {:induction false} SubstituteIdentity(t: string, ms: seq<Macro>)
    requires forall k :: 0 <= k < |ms| ==> Absent(t, ms[k].placeholder)
    ensures Substitute(t, ms) == t
    decreases |ms|
  {
    if ms != [] {
      assert ReplaceFirst(t, ms[0].placeholder, ms[0].value) == t;
      SubstituteIdentity(t, ms[1..]);
    }
  }

  /** No substitution brings back a placeholder that is absent. */
  lemma {:induction false} SubstituteKeepsAbsent(t: string, ms: seq<Macro>, q: string)
    requires WellFormed(ms) && IsPlaceholderText(q)
    requires Absent(t, q)
    ensures Absent(Substitute(t, ms), q)
    decreases |ms|
  {
    if ms != [] {
      PlaceholderDisjoint(q, ms[0].value);
      ReplaceFirstKeepsAbsent(t, ms[0].placeholder, ms[0].value, q);
      SubstituteKeepsAbsent(ReplaceFirst(t, ms[0].placeholder, ms[0].value), ms[1..], q);
    }
  }

  /** When each placeholder occurs at most once, none is left afterwards. */
  lemma {:induction false} SubstituteEliminates(t: string, ms: seq<Macro>)
    requires WellFormed(ms)
    requires forall k :: 0 <= k < |ms| ==> AtMostOnce(t, ms[k].placeholder)
    ensures forall k :: 0 <= k < |ms| ==> Absent(Substitute(t, ms), ms[k].placeholder)
    decreases |ms|
  {
    if ms != [] {
      var m := ms[0];
      var t' := ReplaceFirst(t, m.placeholder, m.value);
      PlaceholderDisjoint(m.placeholder, m.value);
      ReplaceFirstEliminates(t, m.placeholder, m.value);
      forall k | 1 <= k < |ms| ensures AtMostOnce(t', ms[k].placeholder) {
        PlaceholderDisjoint(ms[k].placeholder, m.value);
        ReplaceFirstKeepsAtMostOnce(t, m.placeholder, m.value, ms[k].placeholder);
      }
      SubstituteEliminates(t', ms[1..]);
      SubstituteKeepsAbsent(t', ms[1..], m.placeholder);
      forall k | 0 <= k < |ms| ensures Absent(Substitute(t, ms), ms[k].placeholder) {
        if k > 0 {
          assert ms[k] == ms[1..][k - 1];
        }
      }
    }
  }

  /** A text holding one placeholder once and no other placeholder gets that
      placeholder's value in its place, and nothing else changes. */
  lemma {:induction false} SubstituteSingle(a: string, b: string, ms: seq<Macro>, k: nat)
    requires WellFormed(ms) && k < |ms|
    requires forall j :: 0 <= j < k ==> ms[j].placeholder != ms[k].placeholder
    requires AtMostOnce(a + ms[k].placeholder + b, ms[k].placeholder)
    requires forall j :: 0 <= j < |ms| && ms[j].placeholder != ms[k].placeholder ==>
               Absent(a + ms[k].placeholder + b, ms[j].placeholder)
    ensures Substitute(a + ms[k].placeholder + b, ms) == a + ms[k].value + b
    decreases |ms|
  {
    var p := ms[k].placeholder;
    var t := a + p + b;
    var m := ms[0];
    if k == 0 {
      ReplaceFirstAt(a, p, b, m.value);
      var t' := a + m.value + b;
      PlaceholderDisjoint(p, m.value);
      ReplaceFirstEliminates(t, p, m.value);
      forall j | 0 <= j < |ms[1..]| ensures Absent(t', ms[1..][j].placeholder) {
        var q := ms[1..][j].placeholder;
        if q != p {
          assert ms[j + 1].placeholder == q;
          PlaceholderDisjoint(q, m.value);
          ReplaceFirstKeepsAbsent(t, p, m.value, q);
        }
      }
      SubstituteIdentity(t', ms[1..]);
    } else {
      assert ReplaceFirst(t, m.placeholder, m.value) == t;
      assert ms[1..][k - 1] == ms[k];
      SubstituteSingle(a, b, ms[1..], k - 1);
    }
  }

  /** The words standing at the marked places of a text once the first n
      substitutions are done: ks[i] names the substitution whose placeholder
      stood at place i. */
  function Words(ks: seq<nat>, ms: seq<Macro>, n: nat): (ws: seq<string>)
    requires forall i :: 0 <= i < |ks| ==> ks[i] < |ms|
    ensures |ws| == |ks|
    ensures forall i :: 0 <= i < |ks| ==>
              ws[i] == (if ks[i] < n then ms[ks[i]].value else ms[ks[i]].placeholder)
  {
    seq(|ks|, i requires 0 <= i < |ks| => if ks[i] < n then ms[ks[i]].value else ms[ks[i]].placeholder)
  }

  /** Marks that do not name the n-th substitution read the same before and after it. */
  lemma WordsSkip(ks: seq<nat>, ms: seq<Macro>, n: nat)
    requires forall i :: 0 <= i < |ks| ==> ks[i] < |ms|
    requires n !in ks
    ensures Words(ks, ms, n + 1) == Words(ks, ms, n)
  {
    forall i | 0 <= i < |ks| ensures Words(ks, ms, n + 1)[i] == Words(ks, ms, n)[i] {
      assert ks[i] != n;
    }
  }

  /** The mark naming the n-th substitution is the only one it changes. */
  lemma WordsHit(ks: seq<nat>, ms: seq<Macro>, n: nat, i: nat)
    requires forall i :: 0 <= i < |ks| ==> ks[i] < |ms|
    requires forall i, j :: 0 <= i < j < |ks| ==> ks[i] != ks[j]
    requires i < |ks| && ks[i] == n
    ensures Words(ks, ms, n + 1) == Words(ks, ms, n)[i := ms[n].value]
  {
  }

  /** The n-th substitution turns the n-th placeholder, where it is marked,
      into its value, and changes nothing where it is not. */
  lemma MarkedStep(segs: seq<string>, ks: seq<nat>, ms: seq<Macro>, n: nat)
    requires n < |ms| && |segs| == |ks| + 1
    requires forall i :: 0 <= i < |ks| ==> ks[i] < |ms|
    requires forall i, j :: 0 <= i < j < |ks| ==> ks[i] != ks[j]
    requires AtMostOnce(Interleave(segs, Words(ks, ms, n)), ms[n].placeholder)
    requires n !in ks ==> Absent(Interleave(segs, Words(ks, ms, n)), ms[n].placeholder)
    ensures ReplaceFirst(Interleave(segs, Words(ks, ms, n)), ms[n].placeholder, ms[n].value)
            == Interleave(segs, Words(ks, ms, n + 1))
  {
    if n in ks {
      var i :| 0 <= i < |ks| && ks[i] == n;
      WordsHit(ks, ms, n, i);
      ReplaceWord(segs, Words(ks, ms, n), i, ms[n].value);
    } else {
      WordsSkip(ks, ms, n);
    }
  }

  /** A substitution keeps every later placeholder at most once, and absent
      where it was absent. */
  lemma StepKeepsCounts(t: string, ms: seq<Macro>, ks: seq<nat>, n: nat)
    requires WellFormed(ms) && n < |ms|
    requires forall k :: n < k < |ms| ==> AtMostOnce(t, ms[k].placeholder)
    requires forall k :: n < k < |ms| && k !in ks ==> Absent(t, ms[k].placeholder)
    ensures var t' := ReplaceFirst(t, ms[n].placeholder, ms[n].value);
            (forall k :: n < k < |ms| ==> AtMostOnce(t', ms[k].placeholder)) &&
            (forall k :: n < k < |ms| && k !in ks ==> Absent(t', ms[k].placeholder))
  {
    var m := ms[n];
    forall k | n < k < |ms|
      ensures AtMostOnce(ReplaceFirst(t, m.placeholder, m.value), ms[k].placeholder)
      ensures k !in ks ==> Absent(ReplaceFirst(t, m.placeholder, m.value), ms[k].placeholder)
    {
      PlaceholderDisjoint(ms[k].placeholder, m.value);
      ReplaceFirstKeepsAtMostOnce(t, m.placeholder, m.value, ms[k].placeholder);
      if k !in ks {
        ReplaceFirstKeepsAbsent(t, m.placeholder, m.value, ms[k].placeholder);
      }
    }
  }

  /** The substitutions from the n-th on turn every marked placeholder into its
      value and leave the text between them as it is, provided each
      placeholder occurs at most once and those of unmarked substitutions not
      at all. */
  lemma {:induction false} SubstituteMarked(segs: seq<string>, ks: seq<nat>, ms: seq<Macro>, n: nat)
    requires WellFormed(ms) && n <= |ms| && |segs| == |ks| + 1
    requires forall i :: 0 <= i < |ks| ==> ks[i] < |ms|
    requires forall i, j :: 0 <= i < j < |ks| ==> ks[i] != ks[j]
    requires forall k :: n <= k < |ms| ==> AtMostOnce(Interleave(segs, Words(ks, ms, n)), ms[k].placeholder)
    requires forall k :: n <= k < |ms| && k !in ks ==> Absent(Interleave(segs, Words(ks, ms, n)), ms[k].placeholder)
    ensures Substitute(Interleave(segs, Words(ks, ms, n)), ms[n..]) == Interleave(segs, Words(ks, ms, |ms|))
    decreases |ms| - n
  {
    var t := Interleave(segs, Words(ks, ms, n));
    if n == |ms| {
      assert ms[n..] == [];
    } else {
      var m := ms[n];
      assert ms[n..][0] == m && ms[n..][1..] == ms[n + 1..];
      MarkedStep(segs, ks, ms, n);
      StepKeepsCounts(t, ms, ks, n);
      SubstituteMarked(segs, ks, ms, n + 1);
    }
  }

  // ---------------------------------------------------------------------------
  // Properties of one expanded condition
  // ---------------------------------------------------------------------------

  /** An expanded condition contains no space. */
  lemma ExpandHasNoSpaces(s: string, f: Flow)
    ensures ' ' !in ExpandCondition(s, f)
  {
    var ms := MacroTable(f);
    MacroTableWellFormed(f);
    forall k | 0 <= k < |ms| ensures ' ' !in ms[k].value {
      assert IsNumericText(ms[k].value);
    }
    SubstituteKeepsNoSpace(StripSpaces(s), ms);
  }

  /** A condition with no space and no placeholder comes out unchanged. */
  lemma ExpandKeepsPlainCondition(s: string, f: Flow)
    requires ' ' !in s
    requires forall k :: 0 <= k < |Placeholders| ==> Absent(s, Placeholders[k])
    ensures ExpandCondition(s, f) == s
  {
    SubstituteIdentity(s, MacroTable(f));
  }

  /** When no placeholder occurs twice in a condition, none survives its expansion. */
  lemma ExpandRemovesPlaceholders(s: string, f: Flow)
    requires forall k :: 0 <= k < |Placeholders| ==> AtMostOnce(StripSpaces(s), Placeholders[k])
    ensures forall k :: 0 <= k < |Placeholders| ==> Absent(ExpandCondition(s, f), Placeholders[k])
  {
    MacroTableWellFormed(f);
    SubstituteEliminates(StripSpaces(s), MacroTable(f));
  }

  /** A condition naming one placeholder once gets exactly that placeholder's value
      in its place. */
  lemma ExpandSinglePlaceholder(s: string, f: Flow, k: nat, a: string, b: string)
    requires k < |Placeholders|
    requires StripSpaces(s) == a + Placeholders[k] + b
    requires AtMostOnce(StripSpaces(s), Placeholders[k])
    requires forall j :: 0 <= j < |Placeholders| && j != k ==> Absent(StripSpaces(s), Placeholders[j])
    ensures ExpandCondition(s, f) == a + MacroTable(f)[k].value + b
  {
    MacroTableWellFormed(f);
    PlaceholdersDistinct();
    SubstituteSingle(a, b, MacroTable(f), k);
  }

  /** A condition whose stripped text holds several distinct placeholders,
      each once, at the marked places ks and no other placeholder, comes out
      with each of them replaced by the alert's value for it and the text
      between them unchanged. */
  lemma ExpandPlaceholders(s: string, f: Flow, segs: seq<string>, ks: seq<nat>)
    requires |segs| == |ks| + 1
    requires forall i :: 0 <= i < |ks| ==> ks[i] < |Placeholders|
    requires forall i, j :: 0 <= i < j < |ks| ==> ks[i] != ks[j]
    requires StripSpaces(s) == Interleave(segs, Words(ks, MacroTable(f), 0))
    requires forall k :: 0 <= k < |Placeholders| ==> AtMostOnce(StripSpaces(s), Placeholders[k])
    requires forall k :: 0 <= k < |Placeholders| && k !in ks ==> Absent(StripSpaces(s), Placeholders[k])
    ensures ExpandCondition(s, f) == Interleave(segs, Words(ks, MacroTable(f), |Placeholders|))
  {
    var ms := MacroTable(f);
    MacroTableWellFormed(f);
    assert ms[0..] == ms;
    SubstituteMarked(segs, ks, ms, 0);
  }

  /** Two different placeholders, each once and no other: both are replaced
      where they stand. */
  lemma ExpandTwoPlaceholders(s: string, f: Flow, i: nat, j: nat, a: string, b: string, c: string)
    requires i < |Placeholders| && j < |Placeholders| && i != j
    requires StripSpaces(s) == a + Placeholders[i] + b + Placeholders[j] + c
    requires forall k :: 0 <= k < |Placeholders| ==> AtMostOnce(StripSpaces(s), Placeholders[k])
    requires forall k :: 0 <= k < |Placeholders| && k != i && k != j ==> Absent(StripSpaces(s), Placeholders[k])
    ensures ExpandCondition(s, f) == a + MacroTable(f)[i].value + b + MacroTable(f)[j].value + c
  {
    var ms := MacroTable(f);
    WordsTwo(ms, i, j, 0);
    WordsTwo(ms, i, j, |Placeholders|);
    InterleaveTwo(a, b, c, Placeholders[i], Placeholders[j]);
    InterleaveTwo(a, b, c, ms[i].value, ms[j].value);
    ExpandPlaceholders(s, f, [a, b, c], [i, j]);
  }

  /** The words of two marks. */
  lemma WordsTwo(ms: seq<Macro>, i: nat, j: nat, n: nat)
    requires i < |ms| && j < |ms|
    ensures Words([i, j], ms, n) ==
            [if i < n then ms[i].value else ms[i].placeholder, if j < n then ms[j].value else ms[j].placeholder]
  {
  }

  /** One step of the fold; when the placeholder is missing the step changes
      nothing, which is why the source may guard it with strstr. */
  lemma SubstituteStep(c: string, ms: seq<Macro>, k: nat)
    requires k < |ms|
    ensures Substitute(c, ms[k..]) == Substitute(ReplaceFirst(c, ms[k].placeholder, ms[k].value), ms[k + 1..])
    ensures IndexOf(c, ms[k].placeholder) == -1 ==> ReplaceFirst(c, ms[k].placeholder, ms[k].value) == c
  {
    assert ms[k..][1..] == ms[k + 1..];
  }

  // ---------------------------------------------------------------------------
  // The rewriting in place
  // ---------------------------------------------------------------------------

  /** The guarded step `if (strstr(c, p)) c = str_replace(c, p, v)`: the
      guard changes nothing, since replacing a missing pattern is the identity. */
  method ReplaceIfFound(c: string, p: string, v: string) returns (r: string)
    ensures r == ReplaceFirst(c, p, v)
  {
    r := c;
    if IndexOf(c, p) != -1 {
      r := ReplaceFirst(c, p, v);
    }
  }

  /** A fold over six substitutions written out as the six replacements it makes. */
  lemma SubstituteSix(t: string, ms: seq<Macro>)
    requires |ms| == 6
    ensures Substitute(t, ms) ==
      ReplaceFirst(ReplaceFirst(ReplaceFirst(ReplaceFirst(ReplaceFirst(ReplaceFirst(t,
        ms[0].placeholder, ms[0].value), ms[1].placeholder, ms[1].value),
        ms[2].placeholder, ms[2].value), ms[3].placeholder, ms[3].value),
        ms[4].placeholder, ms[4].value), ms[5].placeholder, ms[5].value)
  {
    var c1 := ReplaceFirst(t, ms[0].placeholder, ms[0].value);
    var c2 := ReplaceFirst(c1, ms[1].placeholder, ms[1].value);
    var c3 := ReplaceFirst(c2, ms[2].placeholder, ms[2].value);
    var c4 := ReplaceFirst(c3, ms[3].placeholder, ms[3].value);
    var c5 := ReplaceFirst(c4, ms[4].placeholder, ms[4].value);
    assert ms[0..] == ms;
    SubstituteStep(t, ms, 0);
    SubstituteStep(c1, ms, 1);
    SubstituteStep(c2, ms, 2);
    SubstituteStep(c3, ms, 3);
    SubstituteStep(c4, ms, 4);
    SubstituteStep(c5, ms, 5);
    assert ms[6..] == [];
  }

  /** The body of the loops of correlation.c:58-105 and :107-152 for one
      condition: strip the spaces, then try each placeholder in turn. */
  method RewriteCondition(s: string, f: Flow) returns (c: string)
    ensures c == ExpandCondition(s, f)
  {
    c := StripSpaces(s);
    c := ReplaceIfFound(c, SRC_ADDR, AddressText(f.srcAddr));
    c := ReplaceIfFound(c, DST_ADDR, AddressText(f.dstAddr));
    c := ReplaceIfFound(c, ANY_ADDR, "0.0.0.0");
    c := ReplaceIfFound(c, SRC_PORT, PortText(f.srcPort));
    c := ReplaceIfFound(c, DST_PORT, PortText(f.dstPort));
    c := ReplaceIfFound(c, ANY_PORT, "0");
    SubstituteSix(StripSpaces(s), MacroTable(f));
  }

  /** Rewrites every condition of one array in place, in index order. */
  method ExpandInPlace(conds: array<string>, f: Flow)
    modifies conds
    ensures forall j :: 0 <= j < conds.Length ==> conds[j] == ExpandCondition(old(conds[j]), f)
  {
    for i := 0 to conds.Length
      invariant forall j :: 0 <= j < i ==> conds[j] == ExpandCondition(old(conds[j]), f)
      invariant forall j :: i <= j < conds.Length ==> conds[j] == old(conds[j])
    {
      conds[i] := RewriteCondition(conds[i], f);
    }
  }

  /** _AI_macro_subst: both condition arrays of the alert's hyperalert are
      rewritten with the alert's own addresses and ports; the hyperalert
      itself and its key stay as they were. */
  method MacroSubst(alert: Alert)
    requires alert.hyperalert != null && alert.hyperalert.Valid()
    modifies alert.hyperalert.preconds, alert.hyperalert.postconds
    ensures forall j :: 0 <= j < alert.hyperalert.preconds.Length ==>
              alert.hyperalert.preconds[j] == ExpandCondition(old(alert.hyperalert.preconds[j]), alert.PacketFlow())
    ensures forall j :: 0 <= j < alert.hyperalert.postconds.Length ==>
              alert.hyperalert.postconds[j] == ExpandCondition(old(alert.hyperalert.postconds[j]), alert.PacketFlow())
  {
    var h := alert.hyperalert;
    ExpandInPlace(h.preconds, alert.PacketFlow());
    ExpandInPlace(h.postconds, alert.PacketFlow());
  }
}
