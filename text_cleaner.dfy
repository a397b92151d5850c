/**
 * `TextCleaner.clean_pdf_text`: the fixed chain of substitutions that mends
 * the spacing damage OCR and PDF text extraction leave in Russian invoices,
 * followed by `str.strip()`.
 */
module TextCleaner {
  import opened Text
  import opened Regex

  /** The six split-word repairs, in the order the cleaner applies them. */
  const SplitRubles := Literal("р уб", "руб")
  const SplitElectr := Literal("э лектр", "электр")
  const SplitEnerg := Literal("э нерг", "энерг")
  const SplitSchet := Literal("сч ё т", "счёт")
  const SplitOsnab := Literal("о снаб", "оснаб")

  /** The first two substitutions: whitespace inside Cyrillic words and before punctuation. */
  function Joined(text: string): string {
    SubAll(SpaceBeforePunct, SubAll(CyrillicGap, text))
  }

  /** The six repairs of typical OCR splits. */
  function OcrFixed(t: string): string {
    var t1 := SubAll(SplitOt, t);
    var t2 := SubAll(SplitRubles, t1);
    var t3 := SubAll(SplitElectr, t2);
    var t4 := SubAll(SplitEnerg, t3);
    var t5 := SubAll(SplitSchet, t4);
    SubAll(SplitOsnab, t5)
  }

  /** The text after the substitutions and before the final strip. */
  function Mended(text: string): string {
    SubAll(SpaceRun, OcrFixed(Joined(text)))
  }

  /** `clean_pdf_text(text)`. */
  function Clean(text: string): string {
    Strip(Mended(text))
  }

  /** No two spaces side by side. */
  predicate NoDoubleSpace(t: string) {
    forall k :: 0 <= k < |t| - 1 ==> !(t[k] == ' ' && t[k + 1] == ' ')
  }

  lemma NoDoubleSpaceCons(c: char, t: string)
    requires NoDoubleSpace(t) && (|t| > 0 && c == ' ' ==> t[0] != ' ')
    ensures NoDoubleSpace([c] + t)
  {
    var u := [c] + t;
    forall k | 0 <= k < |u| - 1
      ensures !(u[k] == ' ' && u[k + 1] == ' ')
    {
      if k > 0 {
        assert u[k] == t[k - 1] && u[k + 1] == t[k];
      }
    }
  }

  /**
   * Collapsing runs of spaces leaves no two spaces side by side, and the
   * rewrite of `s[i..]` starts with the character `s[i]`.
   */
  lemma {:induction false} SpaceRunCollapses(s: string, i: nat)
    requires i <= |s|
    ensures NoDoubleSpace(Sub(SpaceRun, s, i))
    ensures i < |s| ==> |Sub(SpaceRun, s, i)| > 0 && Sub(SpaceRun, s, i)[0] == s[i]
    decreases |s| - i
  {
    if i < |s| {
      var m := Step(SpaceRun, s, i);
      var h, t := Head(SpaceRun, s, i), Sub(SpaceRun, s, i + m);
      SubUnfold(SpaceRun, s, i);
      SpaceRunCollapses(s, i + m);
      if MatchLen(SpaceRun, s, i) > 0 {
        assert h == [' '] && s[i] == ' ';
        RunEndSpec(s, i, Blank);
        assert i + m < |s| ==> s[i + m] != ' ';
      } else {
        assert h == [s[i]];
      }
      NoDoubleSpaceCons(h[0], t);
      assert h + t == [h[0]] + t;
    }
  }

  lemma SliceNoDoubleSpace(t: string, a: nat, b: nat)
    requires a <= b <= |t| && NoDoubleSpace(t)
    ensures NoDoubleSpace(t[a..b])
  {
    var u := t[a..b];
    forall k | 0 <= k < |u| - 1
      ensures !(u[k] == ' ' && u[k + 1] == ' ')
    {
      assert u[k] == t[a + k] && u[k + 1] == t[a + k + 1];
    }
  }

  /** Every substitution of the cleaner shortens or keeps the length. */
  lemma MendedShrinks(text: string)
    ensures |Mended(text)| <= |text|
  {
    var j := Joined(text);
    SubShrinks(CyrillicGap, text, 0);
    SubShrinks(SpaceBeforePunct, SubAll(CyrillicGap, text), 0);
    var t1 := SubAll(SplitOt, j);
    var t2 := SubAll(SplitRubles, t1);
    var t3 := SubAll(SplitElectr, t2);
    var t4 := SubAll(SplitEnerg, t3);
    var t5 := SubAll(SplitSchet, t4);
    SubShrinks(SplitOt, j, 0);
    SubShrinks(SplitRubles, t1, 0);
    SubShrinks(SplitElectr, t2, 0);
    SubShrinks(SplitEnerg, t3, 0);
    SubShrinks(SplitSchet, t4, 0);
    SubShrinks(SplitOsnab, t5, 0);
    SubShrinks(SpaceRun, OcrFixed(j), 0);
  }

  /** A repair that deletes the space at `k` of the word it finds keeps the ink. */
  lemma DropKeeps(find: string, repl: string, k: nat)
    requires k < |find| && IsSpace(find[k]) && repl == find[..k] + find[k + 1..]
    ensures Keeps(Literal(find, repl), Spaces)
  {
    KeptDrop(Spaces, find, k);
  }

  /** `сч ё т` loses its two spaces. */
  lemma SchetKeepsInk()
    ensures Keeps(SplitSchet, Spaces)
  {
    KeptDrop(Spaces, "сч ё т", 2);
    assert "сч ё т"[..2] + "сч ё т"[3..] == "счё т";
    KeptDrop(Spaces, "счё т", 3);
    assert "счё т"[..3] + "счё т"[4..] == "счёт";
  }

  /** Each of the six repairs only removes spaces. */
  lemma RepairKeepsInk(p: Pattern, t: string)
    requires p in {SplitOt, SplitRubles, SplitElectr, SplitEnerg, SplitSchet, SplitOsnab}
    ensures Ink(SubAll(p, t)) == Ink(t)
  {
    if p == SplitRubles {
      DropKeeps("р уб", "руб", 1);
    } else if p == SplitElectr {
      DropKeeps("э лектр", "электр", 1);
    } else if p == SplitEnerg {
      DropKeeps("э нерг", "энерг", 1);
    } else if p == SplitSchet {
      SchetKeepsInk();
    } else if p == SplitOsnab {
      DropKeeps("о снаб", "оснаб", 1);
    }
    SubAllKeeps(p, Spaces, t);
  }

  lemma OcrFixedKeepsInk(t: string)
    ensures Ink(OcrFixed(t)) == Ink(t)
  {
    var t1 := SubAll(SplitOt, t);
    var t2 := SubAll(SplitRubles, t1);
    var t3 := SubAll(SplitElectr, t2);
    var t4 := SubAll(SplitEnerg, t3);
    var t5 := SubAll(SplitSchet, t4);
    RepairKeepsInk(SplitOt, t);
    RepairKeepsInk(SplitRubles, t1);
    RepairKeepsInk(SplitElectr, t2);
    RepairKeepsInk(SplitEnerg, t3);
    RepairKeepsInk(SplitSchet, t4);
    RepairKeepsInk(SplitOsnab, t5);
  }

  /** The substitutions change whitespace only. */
  lemma MendedKeepsInk(text: string)
    ensures Ink(Mended(text)) == Ink(text)
  {
    SubAllKeeps(CyrillicGap, Spaces, text);
    SubAllKeeps(SpaceBeforePunct, Spaces, SubAll(CyrillicGap, text));
    OcrFixedKeepsInk(Joined(text));
    SubAllKeeps(SpaceRun, Spaces, OcrFixed(Joined(text)));
  }

  /**
   * The cleaned text is no longer than the input, has the same
   * non-whitespace content in the same order, neither starts nor ends with
   * whitespace, and holds no two spaces side by side.
   */
  lemma CleanProperties(text: string)
    ensures |Clean(text)| <= |text|
    ensures Ink(Clean(text)) == Ink(text)
    ensures |Clean(text)| > 0 ==> !IsSpace(Clean(text)[0]) && !IsSpace(Clean(text)[|Clean(text)| - 1])
    ensures NoDoubleSpace(Clean(text))
  {
    var m := Mended(text);
    MendedShrinks(text);
    MendedKeepsInk(text);
    StripKeepsInk(Spaces, m);
    SpaceRunCollapses(OcrFixed(Joined(text)), 0);
    SliceNoDoubleSpace(m, StripOffset(m), StripEnd(m));
  }

  /** A blank text cleans to the empty string. */
  lemma CleanBlank(text: string)
    requires AllSpace(text)
    ensures Clean(text) == []
  {
    var m := Mended(text);
    InkEmptyIffBlank(text);
    MendedKeepsInk(text);
    InkEmptyIffBlank(m);
    StripEmptyIffBlank(m);
  }

  /** The first letters of the six words the repairs look for. */
  predicate StartsRepair(c: char) {
    c == 'о' || c == 'р' || c == 'э' || c == 'с'
  }

  /** A text with none of the letters the repairs start with passes them unchanged. */
  lemma OcrFixedQuiet(t: string)
    requires forall k :: 0 <= k < |t| ==> !StartsRepair(t[k])
    ensures OcrFixed(t) == t
  {
    forall p, k | p in {SplitRubles, SplitElectr, SplitEnerg, SplitSchet, SplitOsnab} && 0 <= k < |t|
      ensures MatchLen(p, t, k) == 0
    {
      LiteralMatchStarts(t, k, p.find);
    }
    forall k | 0 <= k < |t|
      ensures MatchLen(SplitOt, t, k) == 0
    {
      SplitOtMatchStarts(t, k);
    }
    SubAllNoMatch(SplitOt, t);
    SubAllNoMatch(SplitRubles, t);
    SubAllNoMatch(SplitElectr, t);
    SubAllNoMatch(SplitEnerg, t);
    SubAllNoMatch(SplitSchet, t);
    SubAllNoMatch(SplitOsnab, t);
  }

  /** No punctuation, no letter a repair starts with, and no two spaces side by side. */
  predicate Calm(t: string)
    decreases |t|
  {
    t == [] || (!StartsRepair(t[0]) && !IsPunct(t[0]) && (|t| > 1 && t[0] == ' ' ==> t[1] != ' ') && Calm(t[1..]))
  }

  lemma {:induction false} CalmMeans(t: string)
    requires Calm(t)
    ensures forall k :: 0 <= k < |t| ==> !StartsRepair(t[k]) && !IsPunct(t[k])
    ensures NoDoubleSpace(t)
    decreases |t|
  {
    if t != [] {
      CalmMeans(t[1..]);
      assert forall k :: 1 <= k < |t| ==> t[k] == t[1..][k - 1];
      NoDoubleSpaceCons(t[0], t[1..]);
      assert t == [t[0]] + t[1..];
    }
  }

  /** Without punctuation, `SpaceBeforePunct` finds nothing. */
  lemma PunctQuiet(t: string)
    requires forall k :: 0 <= k < |t| ==> !IsPunct(t[k])
    ensures SubAll(SpaceBeforePunct, t) == t
  {
    forall k | 0 <= k < |t|
      ensures MatchLen(SpaceBeforePunct, t, k) == 0
    {
    }
    SubAllNoMatch(SpaceBeforePunct, t);
  }

  /** Without two spaces side by side, `SpaceRun` finds nothing. */
  lemma SpaceRunQuiet(t: string)
    requires NoDoubleSpace(t)
    ensures SubAll(SpaceRun, t) == t
  {
    forall k | 0 <= k < |t|
      ensures MatchLen(SpaceRun, t, k) == 0
    {
    }
    SubAllNoMatch(SpaceRun, t);
  }

  /** A text that neither starts nor ends with whitespace is its own strip. */
  lemma StripUnspaced(t: string)
    requires |t| > 0 && !IsSpace(t[0]) && !IsSpace(t[|t| - 1])
    ensures Strip(t) == t
  {
    assert StripOffset(t) == 0;
    assert StripEnd(t) == |t|;
  }

  /** A calm text whose ends are not whitespace is clean once its letters are joined. */
  lemma CleanOfCalm(text: string, t: string)
    requires SubAll(CyrillicGap, text) == t
    requires Calm(t) && |t| > 0 && !IsSpace(t[0]) && !IsSpace(t[|t| - 1])
    ensures Clean(text) == t
  {
    CalmMeans(t);
    PunctQuiet(t);
    assert Joined(text) == t;
    OcrFixedQuiet(t);
    SpaceRunQuiet(t);
    assert Mended(text) == t;
    StripUnspaced(t);
  }

  lemma JoinFirstPass(s: string)
    requires s == "а б в"
    ensures SubAll(CyrillicGap, s) == "аб в"
  {
    assert RunEnd(s, 1, Space) == 2;
    assert CyrillicGapLen(s, 0) == 3;
    assert CyrillicGapLen(s, 3) == 0 && CyrillicGapLen(s, 4) == 0;
    assert Sub(CyrillicGap, s, 5) == "";
    assert Sub(CyrillicGap, s, 4) == "в";
    assert Sub(CyrillicGap, s, 3) == " в";
  }

  lemma JoinSecondPass(u: string)
    requires u == "аб в"
    ensures SubAll(CyrillicGap, u) == "абв"
  {
    assert RunEnd(u, 2, Space) == 3;
    assert CyrillicGapLen(u, 0) == 0 && CyrillicGapLen(u, 1) == 3;
    assert Sub(CyrillicGap, u, 4) == "";
    assert Sub(CyrillicGap, u, 1) == "бв";
  }

  /**
   * Cleaning is not idempotent: the matches of `CyrillicGap` do not overlap,
   * so in "а б в" the letter "б" is consumed by the first match and the
   * second gap survives the first pass; a second pass closes it.
   */
  lemma CleanNotIdempotent(s: string)
    requires s == "а б в"
    ensures Clean(s) == "аб в"
    ensures Clean(Clean(s)) == "абв"
  {
    var u, v := "аб в", "абв";
    JoinFirstPass(s);
    CleanOfCalm(s, u);
    JoinSecondPass(u);
    CleanOfCalm(u, v);
  }
}
