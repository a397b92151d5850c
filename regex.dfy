/**
 * The regular expressions the auditor passes to `re.sub`, and the scan
 * `re.sub` performs with them: at each position, from left to right, the
 * pattern is tried; a match is replaced and the scan resumes after it (so
 * matches never overlap), otherwise one character is copied.  No pattern
 * here can match the empty string, so the scan never has to step over an
 * empty match.  Positions index the ORIGINAL string, which is what a
 * lookbehind such as `(?<![0-9])` inspects.
 */
module Regex {
  import opened Text
  import opened Wrappers

  /** The character classes repeated inside the patterns. */
  datatype Class = Space | Blank | NotQuote | DigitOrDot

  predicate InClass(c: Class, ch: char) {
    match c
    case Space => IsSpace(ch)          // \s
    case Blank => ch == ' '            // a literal space
    case NotQuote => ch != '"'         // [^"]
    case DigitOrDot => IsDigit(ch) || ch == '.'   // [0-9.]
  }

  /** Where a greedy `c*` that starts at `i` stops. */
  function RunEnd(s: string, i: nat, c: Class): (j: nat)
    requires i <= |s|
    ensures i <= j <= |s|
    decreases |s| - i
  {
    if i < |s| && InClass(c, s[i]) then RunEnd(s, i + 1, c) else i
  }

  /** The run is the longest stretch of `c` from `i`: all of it is in `c`, and the next character is not. */
  lemma {:induction false} RunEndSpec(s: string, i: nat, c: Class)
    requires i <= |s|
    ensures forall k :: i <= k < RunEnd(s, i, c) ==> InClass(c, s[k])
    ensures RunEnd(s, i, c) < |s| ==> !InClass(c, s[RunEnd(s, i, c)])
    decreases |s| - i
  {
    if i < |s| && InClass(c, s[i]) {
      RunEndSpec(s, i + 1, c);
    }
  }

  /** The class `[,.;:]`. */
  predicate IsPunct(c: char) {
    c == ',' || c == '.' || c == ';' || c == ':'
  }

  /** True when `s[i..]` begins with `w`. */
  predicate LooksAt(s: string, i: nat, w: string) {
    i + |w| <= |s| && s[i..i + |w|] == w
  }

  /** Every pattern given to `re.sub` by the text cleaner and the JSON isolation and repair. */
  datatype Pattern =
    | CyrillicGap            // ([а-яА-ЯЁё])\s+([а-яА-ЯЁё])  ->  \1\2
    | SpaceBeforePunct       // \s+([,.;:])                   ->  \1
    | SplitOt                // (?<![0-9])о т(?![0-9])        ->  от
    | Literal(find: string, repl: string)   // a fixed word   ->  its repair
    | SpaceRun               // two or more spaces            ->  one space
    | Fence                  // ```(?:json)?\s*               ->  nothing
    | SplitValue             // "\s*:\s*"([^"]*)\n([^"]*)"    ->  ": "\1 \2"
    | CommaNewline           // ,\s*\n\s*                     ->  ", "
    | BraceNewline           // {\s*\n\s*                     ->  "{ "
    | NewlineBrace           // \s*\n\s*}                     ->  " }"
    | Whitespace             // \s+                           ->  one space
    | TrailingComma(close: char)   // ,\s*} or ,\s*\]       ->  the bracket

  /**
   * A match of `"\s*:\s*"([^"]*)\n([^"]*)"` at `i`, as the colon `a`, the
   * value's opening quote `b`, the newline `nl` and the closing quote `q`.
   * The greedy first group backs off to the LAST newline before the closing
   * quote.
   */
  function SplitValueAt(s: string, i: nat): (r: Option<(nat, nat, nat, nat)>)
    requires i <= |s|
    ensures r.Some? ==> var (a, b, nl, q) := r.value; i < a < b < nl < q < |s|
  {
    if i < |s| && s[i] == '"' then
      var a := RunEnd(s, i + 1, Space);
      if a < |s| && s[a] == ':' then
        var b := RunEnd(s, a + 1, Space);
        if b < |s| && s[b] == '"' then
          var q := RunEnd(s, b + 1, NotQuote);
          if q < |s| then
            var nl := FindLast(s, b + 1, q, '\n');
            if nl > b then Some((a, b, nl, q)) else None
          else None
        else None
      else None
    else None
  }

  /** A match of `"\s*:\s*"([^"]*)\n([^"]*)"`: quotes, colon and newline where the pattern puts them. */
  predicate IsSplitValue(s: string, i: nat, a: nat, b: nat, nl: nat, q: nat) {
    && i < a < b < nl < q < |s|
    && s[i] == '"' && s[a] == ':' && s[b] == '"' && s[nl] == '\n' && s[q] == '"'
    && (forall k :: i < k < a ==> IsSpace(s[k]))
    && (forall k :: a < k < b ==> IsSpace(s[k]))
  }

  lemma SplitValueAtSpec(s: string, i: nat)
    requires i <= |s| && SplitValueAt(s, i).Some?
    ensures var (a, b, nl, q) := SplitValueAt(s, i).value; IsSplitValue(s, i, a, b, nl, q)
  {
    var a := RunEnd(s, i + 1, Space);
    var b := RunEnd(s, a + 1, Space);
    var q := RunEnd(s, b + 1, NotQuote);
    RunEndSpec(s, i + 1, Space);
    RunEndSpec(s, a + 1, Space);
    RunEndSpec(s, b + 1, NotQuote);
    FindLastSpec(s, b + 1, q, '\n');
  }

  /**
   * The groups of a split match: no quote inside the value, and the greedy
   * first group has taken every newline but the last.
   */
  lemma SplitValueAtGroups(s: string, i: nat)
    requires i <= |s| && SplitValueAt(s, i).Some?
    ensures var (a, b, nl, q) := SplitValueAt(s, i).value;
      && (forall k :: b < k < q ==> s[k] != '"')
      && (forall k :: nl < k < q ==> s[k] != '\n')
  {
    var a := RunEnd(s, i + 1, Space);
    var b := RunEnd(s, a + 1, Space);
    var q := RunEnd(s, b + 1, NotQuote);
    RunEndSpec(s, b + 1, NotQuote);
    FindLastSpec(s, b + 1, q, '\n');
  }

  /** `\s*\n\s*` starting at `i` (within a whitespace run): the end of the run, if the run holds a newline. */
  function NewlineRunAt(s: string, i: nat): (r: Option<nat>)
    requires i <= |s|
    ensures r.Some? ==> i < r.value <= |s|
  {
    var j := RunEnd(s, i, Space);
    if FindLast(s, i, j, '\n') >= i then Some(j) else None
  }

  lemma NewlineRunAtSpec(s: string, i: nat)
    requires i <= |s| && NewlineRunAt(s, i).Some?
    ensures forall k :: i <= k < NewlineRunAt(s, i).value ==> IsSpace(s[k])
    ensures NewlineRunAt(s, i).value < |s| ==> !IsSpace(s[NewlineRunAt(s, i).value])
    ensures exists k :: i <= k < NewlineRunAt(s, i).value && s[k] == '\n'
  {
    RunEndSpec(s, i, Space);
    var j := RunEnd(s, i, Space);
    FindLastSpec(s, i, j, '\n');
    var k := FindLast(s, i, j, '\n');
    assert s[k] == '\n';
  }

  // One function per pattern: the length of its match at `i`, or 0.

  function CyrillicGapLen(s: string, i: nat): (n: nat)
    requires i <= |s|
    ensures i + n <= |s|
  {
    if i + 1 < |s| && IsCyrillic(s[i]) && IsSpace(s[i + 1]) then
      var j := RunEnd(s, i + 1, Space);
      if j < |s| && IsCyrillic(s[j]) then j + 1 - i else 0
    else 0
  }

  function SpaceBeforePunctLen(s: string, i: nat): (n: nat)
    requires i <= |s|
    ensures i + n <= |s|
  {
    if i < |s| && IsSpace(s[i]) then
      var j := RunEnd(s, i, Space);
      if j < |s| && IsPunct(s[j]) then j + 1 - i else 0
    else 0
  }

  function SplitOtLen(s: string, i: nat): (n: nat)
    requires i <= |s|
    ensures i + n <= |s|
  {
    if (i == 0 || !IsDigit(s[i - 1])) && LooksAt(s, i, "о т")
       && (i + 3 == |s| || !IsDigit(s[i + 3]))
    then 3 else 0
  }

  function LiteralLen(s: string, i: nat, find: string): (n: nat)
    requires i <= |s|
    ensures i + n <= |s|
  {
    if |find| > 0 && LooksAt(s, i, find) then |find| else 0
  }

  function SpaceRunLen(s: string, i: nat): (n: nat)
    requires i <= |s|
    ensures i + n <= |s|
  {
    if i + 1 < |s| && s[i] == ' ' && s[i + 1] == ' ' then RunEnd(s, i, Blank) - i else 0
  }

  function FenceLen(s: string, i: nat): (n: nat)
    requires i <= |s|
    ensures i + n <= |s|
  {
    if LooksAt(s, i, "```") then
      var k := if LooksAt(s, i + 3, "json") then i + 7 else i + 3;
      RunEnd(s, k, Space) - i
    else 0
  }

  function SplitValueLen(s: string, i: nat): (n: nat)
    requires i <= |s|
    ensures i + n <= |s|
  {
    match SplitValueAt(s, i)
    case Some((_, _, _, q)) => q + 1 - i
    case None => 0
  }

  /** `c\s*\n\s*` for the leading character `c`. */
  function LeadNewlineLen(s: string, i: nat, c: char): (n: nat)
    requires i <= |s|
    ensures i + n <= |s|
  {
    if i < |s| && s[i] == c then
      match NewlineRunAt(s, i + 1)
      case Some(j) => j - i
      case None => 0
    else 0
  }

  function NewlineBraceLen(s: string, i: nat): (n: nat)
    requires i <= |s|
    ensures i + n <= |s|
  {
    match NewlineRunAt(s, i)
    case Some(j) => if j < |s| && s[j] == '}' then j + 1 - i else 0
    case None => 0
  }

  function WhitespaceLen(s: string, i: nat): (n: nat)
    requires i <= |s|
    ensures i + n <= |s|
  {
    RunEnd(s, i, Space) - i
  }

  function TrailingCommaLen(s: string, i: nat, close: char): (n: nat)
    requires i <= |s|
    ensures i + n <= |s|
  {
    if i < |s| && s[i] == ',' then
      var j := RunEnd(s, i + 1, Space);
      if j < |s| && s[j] == close then j + 1 - i else 0
    else 0
  }

  /** The length of the match of `p` at `i`, or 0 when `p` does not match there. */
  function MatchLen(p: Pattern, s: string, i: nat): (n: nat)
    requires i <= |s|
    ensures i + n <= |s|
  {
    match p
    case CyrillicGap => CyrillicGapLen(s, i)
    case SpaceBeforePunct => SpaceBeforePunctLen(s, i)
    case SplitOt => SplitOtLen(s, i)
    case Literal(find, _) => LiteralLen(s, i, find)
    case SpaceRun => SpaceRunLen(s, i)
    case Fence => FenceLen(s, i)
    case SplitValue => SplitValueLen(s, i)
    case CommaNewline => LeadNewlineLen(s, i, ',')
    case BraceNewline => LeadNewlineLen(s, i, '{')
    case NewlineBrace => NewlineBraceLen(s, i)
    case Whitespace => WhitespaceLen(s, i)
    case TrailingComma(close) => TrailingCommaLen(s, i, close)
  }

  /** `": "\1 \2"`: the value between quotes `b` and `q` with its newline at `nl` made a space. */
  function JoinedValue(s: string, b: nat, nl: nat, q: nat): string
    requires b < nl < q <= |s|
  {
    "\": \"" + s[b + 1..nl] + " " + s[nl + 1..q] + "\""
  }

  /** The replacement of the match of `p` at `i`, its groups filled in. */
  function Expand(p: Pattern, s: string, i: nat): string
    requires i <= |s| && MatchLen(p, s, i) > 0
  {
    match p
    case CyrillicGap => [s[i], s[i + CyrillicGapLen(s, i) - 1]]
    case SpaceBeforePunct => [s[i + SpaceBeforePunctLen(s, i) - 1]]
    case SplitOt => "от"
    case Literal(_, repl) => repl
    case SpaceRun => " "
    case Fence => ""
    case SplitValue =>
      var parts := SplitValueAt(s, i).value;
      JoinedValue(s, parts.1, parts.2, parts.3)
    case CommaNewline => ", "
    case BraceNewline => "{ "
    case NewlineBrace => " }"
    case Whitespace => " "
    case TrailingComma(close) => [close]
  }

  /** How far the scan advances from `i`: past the match, or one character. */
  function Step(p: Pattern, s: string, i: nat): (m: nat)
    requires i < |s|
    ensures 0 < m && i + m <= |s|
  {
    if MatchLen(p, s, i) > 0 then MatchLen(p, s, i) else 1
  }

  /** What the scan emits at `i`: the replacement, or the copied character. */
  function Head(p: Pattern, s: string, i: nat): string
    requires i < |s|
  {
    if MatchLen(p, s, i) > 0 then Expand(p, s, i) else [s[i]]
  }

  /** What the scan does at one position: how far it advances and what it emits. */
  datatype Piece = Piece(step: nat, out: string)

  /** Every piece advances, and not past the end of the table. */
  predicate Advances(t: seq<Piece>) {
    forall k :: 0 <= k < |t| ==> 0 < t[k].step <= |t| - k
  }

  /**
   * The left-to-right scan over a table of pieces, one per position: emit
   * the piece at `i`, then resume where it ends.
   */
  function Scan(t: seq<Piece>, i: nat): string
    requires Advances(t) && i <= |t|
    decreases |t| - i
  {
    if i == |t| then "" else t[i].out + Scan(t, i + t[i].step)
  }

  /** The table the scan with `p` follows over `s`. */
  function Pieces(p: Pattern, s: string): (t: seq<Piece>)
    ensures |t| == |s| && Advances(t)
  {
    seq(|s|, k requires 0 <= k < |s| => Piece(Step(p, s, k), Head(p, s, k)))
  }

  /**
   * `re.sub(p, repl, s[i..])`, scanning the original string `s` from index
   * `i`: the scan over the table of `p`.
   */
  function Sub(p: Pattern, s: string, i: nat): string
    requires i <= |s|
  {
    Scan(Pieces(p, s), i)
  }

  /** `re.sub(p, repl, s)`. */
  function SubAll(p: Pattern, s: string): string {
    Sub(p, s, 0)
  }

  /** One step of the scan: the replacement or the copied character, then the rest. */
  lemma SubUnfold(p: Pattern, s: string, i: nat)
    requires i < |s|
    ensures Sub(p, s, i) == Head(p, s, i) + Sub(p, s, i + Step(p, s, i))
  {
    var t := Pieces(p, s);
    assert t[i] == Piece(Step(p, s, i), Head(p, s, i));
  }

  /** At the end of the text the scan emits nothing. */
  lemma SubEnd(p: Pattern, s: string)
    ensures Sub(p, s, |s|) == []
  {
  }

  // ---------------------------------------------------------------------
  // Properties common to all patterns.

  /** The patterns whose replacement is never longer than what it replaces. */
  predicate Shrinks(p: Pattern) {
    !p.SplitValue? && (p.Literal? ==> |p.repl| <= |p.find|)
  }

  /** The patterns whose replacement differs from the match only in characters `e` erases. */
  predicate Keeps(p: Pattern, e: Erasure) {
    match p
    case Literal(find, repl) => Kept(e, find) == Kept(e, repl)
    case TrailingComma(_) => e == SpacesAndCommas
    case Fence => false
    case _ => true
  }

  lemma HeadShrinks(p: Pattern, s: string, i: nat)
    requires i < |s| && Shrinks(p)
    ensures |Head(p, s, i)| <= Step(p, s, i)
  {
    if MatchLen(p, s, i) > 0 {
      match p
      case Literal(find, repl) => assert MatchLen(p, s, i) == |find|;
      case _ =>
    }
  }

  /** Every piece emits at most as many characters as it advances over. */
  predicate ShrinkingTable(t: seq<Piece>) {
    forall k :: 0 <= k < |t| ==> |t[k].out| <= t[k].step
  }

  /** A scan whose pieces never emit more than they advance emits at most what remains. */
  lemma {:induction false} ScanShrinks(t: seq<Piece>, i: nat)
    requires Advances(t) && i <= |t|
    requires ShrinkingTable(t)
    ensures |Scan(t, i)| <= |t| - i
    decreases |t| - i
  {
    if i < |t| {
      ScanShrinks(t, i + t[i].step);
    }
  }

  /** A rewrite with a shrinking pattern is never longer than its input. */
  lemma SubShrinks(p: Pattern, s: string, i: nat)
    requires i <= |s| && Shrinks(p)
    ensures |Sub(p, s, i)| <= |s| - i
  {
    TableShrinks(p, s);
    ScanShrinks(Pieces(p, s), i);
  }

  /** No piece of the table of a shrinking pattern emits more than it advances. */
  lemma TableShrinks(p: Pattern, s: string)
    requires Shrinks(p)
    ensures ShrinkingTable(Pieces(p, s))
  {
    var t := Pieces(p, s);
    forall k | 0 <= k < |t|
      ensures |t[k].out| <= t[k].step
    {
      HeadShrinks(p, s, k);
    }
  }

  /** One position of `s`, kept or erased. */
  lemma KeptInAt(e: Erasure, s: string, x: nat)
    requires x < |s|
    ensures KeptIn(e, s, x, x + 1) == if Erased(e, s[x]) then Nil else Cons(s[x], Nil)
  {
  }

  /** Two characters, kept or erased one by one. */
  lemma KeptOfTwo(e: Erasure, c: char, d: char)
    ensures Kept(e, [c, d]) == Cat(Kept(e, [c]), Kept(e, [d]))
  {
    assert [c, d] == [c] + [d];
    KeptConcat(e, [c], [d]);
  }

  /** A character, then whitespace up to `j`: only the character is kept. */
  lemma KeptInLead(e: Erasure, s: string, x: nat, j: nat)
    requires x < j <= |s|
    requires forall k :: x < k < j ==> IsSpace(s[k])
    ensures KeptIn(e, s, x, j) == KeptIn(e, s, x, x + 1)
  {
    KeptInSplit(e, s, x, x + 1, j);
    KeptInSpaces(e, s, x + 1, j);
    CatNil(KeptIn(e, s, x, x + 1));
  }

  /** Whitespace from `x` to `j`, then the character at `j`: only that character is kept. */
  lemma KeptInTrail(e: Erasure, s: string, x: nat, j: nat)
    requires x <= j < |s|
    requires forall k :: x <= k < j ==> IsSpace(s[k])
    ensures KeptIn(e, s, x, j + 1) == KeptIn(e, s, j, j + 1)
  {
    KeptInSplit(e, s, x, j, j + 1);
    KeptInSpaces(e, s, x, j);
  }

  lemma ExpandKeepsCyrillicGap(e: Erasure, s: string, i: nat)
    requires i <= |s| && MatchLen(CyrillicGap, s, i) > 0
    ensures Kept(e, Expand(CyrillicGap, s, i)) == KeptIn(e, s, i, i + MatchLen(CyrillicGap, s, i))
  {
    var j := RunEnd(s, i + 1, Space);
    RunEndSpec(s, i + 1, Space);
    assert i + CyrillicGapLen(s, i) == j + 1;
    KeptOfTwo(e, s[i], s[j]);
    KeptOfOne(e, s[i]);
    KeptOfOne(e, s[j]);
    KeptInSplit(e, s, i, i + 1, j + 1);
    KeptInTrail(e, s, i + 1, j);
    KeptInAt(e, s, i);
    KeptInAt(e, s, j);
  }

  lemma ExpandKeepsSpaceBeforePunct(e: Erasure, s: string, i: nat)
    requires i <= |s| && MatchLen(SpaceBeforePunct, s, i) > 0
    ensures Kept(e, Expand(SpaceBeforePunct, s, i)) == KeptIn(e, s, i, i + MatchLen(SpaceBeforePunct, s, i))
  {
    var j := RunEnd(s, i, Space);
    RunEndSpec(s, i, Space);
    assert i + SpaceBeforePunctLen(s, i) == j + 1;
    KeptInTrail(e, s, i, j);
    KeptInAt(e, s, j);
    KeptOfOne(e, s[j]);
  }

  /** `о т` keeps `от`. */
  lemma KeptInSplitOt(e: Erasure, s: string, i: nat)
    requires i + 3 <= |s| && s[i] == 'о' && s[i + 1] == ' ' && s[i + 2] == 'т'
    ensures KeptIn(e, s, i, i + 3) == Cons('о', Cons('т', Nil))
  {
    KeptInSplit(e, s, i, i + 2, i + 3);
    KeptInSplit(e, s, i, i + 1, i + 2);
    KeptInAt(e, s, i);
    KeptInAt(e, s, i + 1);
    KeptInAt(e, s, i + 2);
  }

  lemma ExpandKeepsSplitOt(e: Erasure, s: string, i: nat)
    requires i <= |s| && MatchLen(SplitOt, s, i) > 0
    ensures Kept(e, Expand(SplitOt, s, i)) == KeptIn(e, s, i, i + MatchLen(SplitOt, s, i))
  {
    assert s[i] == 'о' && s[i + 1] == ' ' && s[i + 2] == 'т' by {
      assert s[i..i + 3] == "о т";
    }
    KeptInSplitOt(e, s, i);
    KeptOfTwo(e, 'о', 'т');
    KeptOfOne(e, 'о');
    KeptOfOne(e, 'т');
  }

  lemma ExpandKeepsLiteral(e: Erasure, s: string, i: nat, find: string, repl: string)
    requires i <= |s| && MatchLen(Literal(find, repl), s, i) > 0 && Kept(e, find) == Kept(e, repl)
    ensures Kept(e, Expand(Literal(find, repl), s, i)) == KeptIn(e, s, i, i + MatchLen(Literal(find, repl), s, i))
  {
    KeptOfSlice(e, s, i, i + |find|);
  }

  /** A run of whitespace keeps what one space keeps: nothing. */
  lemma KeptInSpaceRun(e: Erasure, s: string, i: nat, j: nat)
    requires i <= j <= |s|
    requires forall k :: i <= k < j ==> IsSpace(s[k])
    ensures Kept(e, " ") == KeptIn(e, s, i, j)
  {
    KeptInSpaces(e, s, i, j);
    KeptOfOne(e, ' ');
  }

  lemma ExpandKeepsSpaceRun(e: Erasure, s: string, i: nat)
    requires i <= |s| && MatchLen(SpaceRun, s, i) > 0
    ensures Kept(e, Expand(SpaceRun, s, i)) == KeptIn(e, s, i, i + MatchLen(SpaceRun, s, i))
  {
    var j := RunEnd(s, i, Blank);
    RunEndSpec(s, i, Blank);
    assert forall k :: i <= k < j ==> InClass(Blank, s[k]);
    KeptInSpaceRun(e, s, i, j);
  }

  lemma ExpandKeepsWhitespace(e: Erasure, s: string, i: nat)
    requires i <= |s| && MatchLen(Whitespace, s, i) > 0
    ensures Kept(e, Expand(Whitespace, s, i)) == KeptIn(e, s, i, i + MatchLen(Whitespace, s, i))
  {
    var j := RunEnd(s, i, Space);
    RunEndSpec(s, i, Space);
    assert forall k :: i <= k < j ==> InClass(Space, s[k]);
    KeptInSpaceRun(e, s, i, j);
  }

  /** The characters that `"\s*:\s*"` and `": "` keep: the two quotes and the colon. */
  const SeparatorInk: Chars := Cons('"', Cons(':', Cons('"', Nil)))

  /** `"\s*:\s*"` keeps what `": "` keeps. */
  lemma KeptInKeyValueSeparator(e: Erasure, s: string, i: nat, a: nat, b: nat)
    requires i < a < b < |s| && s[i] == '"' && s[a] == ':' && s[b] == '"'
    requires forall k :: i < k < a ==> IsSpace(s[k])
    requires forall k :: a < k < b ==> IsSpace(s[k])
    ensures KeptIn(e, s, i, b + 1) == SeparatorInk
  {
    KeptInLead(e, s, i, a);
    KeptInLead(e, s, a, b);
    KeptInAt(e, s, i);
    KeptInAt(e, s, a);
    KeptInAt(e, s, b);
    KeptInSplit(e, s, a, b, b + 1);
    KeptInSplit(e, s, i, a, b + 1);
  }

  lemma KeptOfSeparator(e: Erasure)
    ensures Kept(e, "\": \"") == SeparatorInk
  {
    assert "\": \"" == ['"'] + ([':'] + ([' '] + ['"']));
    KeptOfOne(e, '"');
    KeptOfOne(e, ':');
    KeptOfOne(e, ' ');
    KeptConcat(e, [' '], ['"']);
    KeptConcat(e, [':'], [' '] + ['"']);
    KeptConcat(e, ['"'], [':'] + ([' '] + ['"']));
  }

  /** What the joined value keeps: the separator, both parts of the value, the closing quote. */
  function JoinedInk(e: Erasure, s: string, b: nat, nl: nat, q: nat): Chars
    requires b < nl < q <= |s|
  {
    Cat(SeparatorInk, Cat(KeptIn(e, s, b + 1, nl), Cat(KeptIn(e, s, nl + 1, q), Cons('"', Nil))))
  }

  lemma KeptOfJoinedValue(e: Erasure, s: string, b: nat, nl: nat, q: nat)
    requires b < nl < q <= |s|
    ensures Kept(e, JoinedValue(s, b, nl, q)) == JoinedInk(e, s, b, nl, q)
  {
    var o, g1, g2 := "\": \"", s[b + 1..nl], s[nl + 1..q];
    var v1, v2 := KeptIn(e, s, b + 1, nl), KeptIn(e, s, nl + 1, q);
    KeptOfSeparator(e);
    KeptOfSlice(e, s, b + 1, nl);
    KeptOfSlice(e, s, nl + 1, q);
    KeptOfOne(e, ' ');
    KeptOfOne(e, '"');
    KeptConcat(e, o, g1);
    KeptConcat(e, o + g1, " ");
    CatNil(Kept(e, o + g1));
    KeptConcat(e, o + g1 + " ", g2);
    KeptConcat(e, o + g1 + " " + g2, "\"");
    CatAssoc(Cat(SeparatorInk, v1), v2, Cons('"', Nil));
    CatAssoc(SeparatorInk, v1, Cat(v2, Cons('"', Nil)));
    assert JoinedValue(s, b, nl, q) == o + g1 + " " + g2 + "\"";
  }

  /** An erased character at `x` contributes nothing. */
  lemma KeptInSkip(e: Erasure, s: string, x: nat, y: nat)
    requires x < y <= |s| && Erased(e, s[x])
    ensures KeptIn(e, s, x, y) == KeptIn(e, s, x + 1, y)
  {
  }

  /** The quoted value of a split match, its newline erased, then the closing quote. */
  lemma KeptInSplitTail(e: Erasure, s: string, b: nat, nl: nat, q: nat)
    requires b < nl < q < |s| && s[nl] == '\n' && s[q] == '"'
    ensures KeptIn(e, s, b + 1, q + 1) == Cat(KeptIn(e, s, b + 1, nl), Cat(KeptIn(e, s, nl + 1, q), Cons('"', Nil)))
  {
    KeptInSplit(e, s, b + 1, nl, q + 1);
    KeptInSkip(e, s, nl, q + 1);
    KeptInSplit(e, s, nl + 1, q, q + 1);
    KeptInAt(e, s, q);
  }

  /** A whole match of `"\s*:\s*"([^"]*)\n([^"]*)"`, the newline erased. */
  lemma KeptInSplitValue(e: Erasure, s: string, i: nat, a: nat, b: nat, nl: nat, q: nat)
    requires IsSplitValue(s, i, a, b, nl, q)
    ensures KeptIn(e, s, i, q + 1) == JoinedInk(e, s, b, nl, q)
  {
    KeptInKeyValueSeparator(e, s, i, a, b);
    KeptInSplit(e, s, i, b + 1, q + 1);
    KeptInSplitTail(e, s, b, nl, q);
  }

  lemma ExpandKeepsSplitValue(e: Erasure, s: string, i: nat)
    requires i <= |s| && MatchLen(SplitValue, s, i) > 0
    ensures Kept(e, Expand(SplitValue, s, i)) == KeptIn(e, s, i, i + MatchLen(SplitValue, s, i))
  {
    var parts := SplitValueAt(s, i).value;
    var a, b, nl, q := parts.0, parts.1, parts.2, parts.3;
    SplitValueAtSpec(s, i);
    assert i + SplitValueLen(s, i) == q + 1;
    KeptOfJoinedValue(e, s, b, nl, q);
    KeptInSplitValue(e, s, i, a, b, nl, q);
  }

  lemma ExpandKeepsNewlineRun(p: Pattern, e: Erasure, s: string, i: nat)
    requires p.CommaNewline? || p.BraceNewline?
    requires i <= |s| && MatchLen(p, s, i) > 0
    ensures Kept(e, Expand(p, s, i)) == KeptIn(e, s, i, i + MatchLen(p, s, i))
  {
    var c := if p.CommaNewline? then ',' else '{';
    assert Expand(p, s, i) == [c, ' '];
    var j := NewlineRunAt(s, i + 1).value;
    NewlineRunAtSpec(s, i + 1);
    assert i + LeadNewlineLen(s, i, c) == j;
    KeptInLead(e, s, i, j);
    KeptInAt(e, s, i);
    KeptOfTwo(e, c, ' ');
    KeptOfOne(e, c);
    KeptOfOne(e, ' ');
  }

  lemma ExpandKeepsNewlineBrace(e: Erasure, s: string, i: nat)
    requires i <= |s| && MatchLen(NewlineBrace, s, i) > 0
    ensures Kept(e, Expand(NewlineBrace, s, i)) == KeptIn(e, s, i, i + MatchLen(NewlineBrace, s, i))
  {
    var j := NewlineRunAt(s, i).value;
    NewlineRunAtSpec(s, i);
    assert i + NewlineBraceLen(s, i) == j + 1;
    KeptInTrail(e, s, i, j);
    KeptInAt(e, s, j);
    KeptOfTwo(e, ' ', '}');
    KeptOfOne(e, ' ');
    KeptOfOne(e, '}');
  }

  lemma ExpandKeepsTrailingComma(e: Erasure, s: string, i: nat, close: char)
    requires i <= |s| && MatchLen(TrailingComma(close), s, i) > 0 && e == SpacesAndCommas
    ensures Kept(e, Expand(TrailingComma(close), s, i)) == KeptIn(e, s, i, i + MatchLen(TrailingComma(close), s, i))
  {
    var j := RunEnd(s, i + 1, Space);
    RunEndSpec(s, i + 1, Space);
    assert i + TrailingCommaLen(s, i, close) == j + 1;
    KeptInSplit(e, s, i, i + 1, j + 1);
    KeptInAt(e, s, i);
    KeptInTrail(e, s, i + 1, j);
    KeptInAt(e, s, j);
    KeptOfOne(e, close);
  }

  /** A replacement keeps what its match keeps, for every pattern that `Keeps` admits. */
  lemma ExpandKeeps(p: Pattern, e: Erasure, s: string, i: nat)
    requires i <= |s| && MatchLen(p, s, i) > 0 && Keeps(p, e)
    ensures Kept(e, Expand(p, s, i)) == KeptIn(e, s, i, i + MatchLen(p, s, i))
  {
    match p
    case CyrillicGap => ExpandKeepsCyrillicGap(e, s, i);
    case SpaceBeforePunct => ExpandKeepsSpaceBeforePunct(e, s, i);
    case SplitOt => ExpandKeepsSplitOt(e, s, i);
    case Literal(find, repl) => ExpandKeepsLiteral(e, s, i, find, repl);
    case SpaceRun => ExpandKeepsSpaceRun(e, s, i);
    case Fence =>
    case SplitValue => ExpandKeepsSplitValue(e, s, i);
    case CommaNewline => ExpandKeepsNewlineRun(p, e, s, i);
    case BraceNewline => ExpandKeepsNewlineRun(p, e, s, i);
    case NewlineBrace => ExpandKeepsNewlineBrace(e, s, i);
    case Whitespace => ExpandKeepsWhitespace(e, s, i);
    case TrailingComma(close) => ExpandKeepsTrailingComma(e, s, i, close);
  }

  lemma HeadKeeps(p: Pattern, e: Erasure, s: string, i: nat)
    requires i < |s| && Keeps(p, e)
    ensures Kept(e, Head(p, s, i)) == KeptIn(e, s, i, i + Step(p, s, i))
  {
    if MatchLen(p, s, i) > 0 {
      ExpandKeeps(p, e, s, i);
    } else {
      KeptInAt(e, s, i);
      KeptOfOne(e, s[i]);
    }
  }

  /** Keeping distributes over one step of a scan that emits `h` and then `t`. */
  lemma KeptStep(e: Erasure, r: string, h: string, t: string, s: string, i: nat, j: nat)
    requires i <= j <= |s| && r == h + t
    requires Kept(e, h) == KeptIn(e, s, i, j) && Kept(e, t) == KeptIn(e, s, j, |s|)
    ensures Kept(e, r) == KeptIn(e, s, i, |s|)
  {
    KeptConcat(e, h, t);
    KeptInSplit(e, s, i, j, |s|);
  }

  /** Every piece keeps the characters of the stretch of `s` it advances over. */
  predicate KeepingTable(e: Erasure, s: string, t: seq<Piece>)
    requires |t| == |s| && Advances(t)
  {
    forall k :: 0 <= k < |t| ==> Kept(e, t[k].out) == KeptIn(e, s, k, k + t[k].step)
  }

  /** A scan whose every piece keeps what it replaces keeps the rest of the text. */
  lemma {:induction false} ScanKeeps(e: Erasure, s: string, t: seq<Piece>, i: nat)
    requires |t| == |s| && Advances(t) && i <= |s| && KeepingTable(e, s, t)
    ensures Kept(e, Scan(t, i)) == KeptIn(e, s, i, |s|)
    decreases |s| - i
  {
    if i < |s| {
      var j := i + t[i].step;
      ScanKeeps(e, s, t, j);
      KeptStep(e, Scan(t, i), t[i].out, Scan(t, j), s, i, j);
    }
  }

  /** A rewrite whose replacements differ only in erased characters keeps the rest of the text. */
  lemma SubKeeps(p: Pattern, e: Erasure, s: string, i: nat)
    requires i <= |s| && Keeps(p, e)
    ensures Kept(e, Sub(p, s, i)) == KeptIn(e, s, i, |s|)
  {
    TableKeeps(p, e, s);
    ScanKeeps(e, s, Pieces(p, s), i);
  }

  /** Every piece of the table of such a pattern keeps what it replaces. */
  lemma TableKeeps(p: Pattern, e: Erasure, s: string)
    requires Keeps(p, e)
    ensures KeepingTable(e, s, Pieces(p, s))
  {
    var t := Pieces(p, s);
    forall k | 0 <= k < |t|
      ensures Kept(e, t[k].out) == KeptIn(e, s, k, k + t[k].step)
    {
      HeadKeeps(p, e, s, k);
    }
  }

  /** `re.sub` with such a pattern drops only characters `e` erases. */
  lemma SubAllKeeps(p: Pattern, e: Erasure, s: string)
    requires Keeps(p, e)
    ensures Kept(e, SubAll(p, s)) == Kept(e, s)
  {
    SubKeeps(p, e, s, 0);
    KeptOfSlice(e, s, 0, |s|);
    assert s[0..|s|] == s;
  }

  lemma ConsSlice(s: string, i: nat, j: nat, r: string, rest: string, u: string)
    requires i < j <= |s| && r == [s[i]] + u && u == s[i + 1..j] + rest
    ensures r == s[i..j] + rest
  {
    assert s[i..j] == [s[i]] + s[i + 1..j];
  }

  /** Over positions whose pieces copy their character, the scan copies the text. */
  lemma {:induction false} ScanCopies(s: string, t: seq<Piece>, i: nat, j: nat)
    requires |t| == |s| && Advances(t) && i <= j <= |s|
    requires forall k :: i <= k < j ==> t[k] == Piece(1, [s[k]])
    ensures Scan(t, i) == s[i..j] + Scan(t, j)
    decreases j - i
  {
    if i < j {
      ScanCopies(s, t, i + 1, j);
      ConsSlice(s, i, j, Scan(t, i), Scan(t, j), Scan(t, i + 1));
    } else {
      assert s[i..j] == [];
    }
  }

  /** Where no match starts, `re.sub` copies the text unchanged. */
  lemma SubCopies(p: Pattern, s: string, i: nat, j: nat)
    requires i <= j <= |s|
    requires forall k :: i <= k < j ==> MatchLen(p, s, k) == 0
    ensures Sub(p, s, i) == s[i..j] + Sub(p, s, j)
  {
    var t := Pieces(p, s);
    forall k | i <= k < j
      ensures t[k] == Piece(1, [s[k]])
    {
      assert Step(p, s, k) == 1 && Head(p, s, k) == [s[k]];
    }
    ScanCopies(s, t, i, j);
  }

  /** A text in which the pattern matches nowhere is left unchanged. */
  lemma SubAllNoMatch(p: Pattern, s: string)
    requires forall k :: 0 <= k < |s| ==> MatchLen(p, s, k) == 0
    ensures SubAll(p, s) == s
  {
    SubCopies(p, s, 0, |s|);
    assert s[0..|s|] == s;
  }

  /** A match of a fixed word starts with the word's first letter. */
  lemma LiteralMatchStarts(s: string, k: nat, find: string)
    requires k <= |s|
    ensures LiteralLen(s, k, find) > 0 ==> s[k] == find[0]
  {
    if LiteralLen(s, k, find) > 0 {
      assert s[k..k + |find|][0] == s[k];
    }
  }

  lemma SplitOtMatchStarts(s: string, k: nat)
    requires k <= |s|
    ensures SplitOtLen(s, k) > 0 ==> s[k] == 'о'
  {
    if SplitOtLen(s, k) > 0 {
      assert s[k..k + 3][0] == s[k];
    }
  }

  /** `a` ends with `b`. */
  predicate EndsWith(a: string, b: string) {
    |b| <= |a| && a[|a| - |b|..] == b
  }

  lemma EndsWithEmptyTail(h: string, t: string)
    requires t == []
    ensures EndsWith(h + t, h)
  {
    assert h + t == h;
  }

  lemma EndsWithAppend(h: string, t: string, u: string)
    requires EndsWith(t, u)
    ensures EndsWith(h + t, u)
  {
    assert (h + t)[|h + t| - |u|..] == t[|t| - |u|..];
  }

  /** The scan from `i` ends with the piece, at `k`, that reaches the end of the table. */
  lemma {:induction false} ScanLast(t: seq<Piece>, i: nat) returns (k: nat)
    requires Advances(t) && i < |t|
    ensures i <= k < |t| && k + t[k].step == |t|
    ensures EndsWith(Scan(t, i), t[k].out)
    decreases |t| - i
  {
    var j := i + t[i].step;
    var h, r := t[i].out, Scan(t, j);
    assert Scan(t, i) == h + r;
    if j == |t| {
      k := i;
      EndsWithEmptyTail(h, r);
    } else {
      k := ScanLast(t, j);
      EndsWithAppend(h, r, t[k].out);
    }
  }

  /**
   * The rewrite of `s[i..]` ends with what the scan emits at its last step
   * `k`, the step that reaches the end of the text.
   */
  lemma SubLast(p: Pattern, s: string, i: nat) returns (k: nat)
    requires i < |s|
    ensures i <= k < |s| && k + Step(p, s, k) == |s|
    ensures EndsWith(Sub(p, s, i), Head(p, s, k))
  {
    var t := Pieces(p, s);
    k := ScanLast(t, i);
    assert t[k] == Piece(Step(p, s, k), Head(p, s, k));
  }
}
