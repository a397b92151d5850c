/**
 * `InvoiceAuditor.extract_json_from_text` and `parse_json_robust`: isolating
 * the JSON object in the model's reply, the strict parse, the repaired parse,
 * and the field-by-field regex salvage that is the last resort.
 */
module JsonRecovery {
  import opened Wrappers
  import opened Text
  import opened Regex

  /** A JSON value as `json.loads` returns it (objects lose their key order). */
  datatype Json =
    | JNull
    | JBool(b: bool)
    | JNumber(n: real)
    | JString(s: string)
    | JArray(items: seq<Json>)
    | JObject(fields: map<string, Json>)

  // ---------------------------------------------------------------------
  // Isolation of the object.

  /** The reply with its code fences removed and its ends stripped. */
  function Unfenced(text: string): string {
    Strip(SubAll(Fence, text))
  }

  /** The four newline repairs and the whitespace collapse, in order. */
  function Flattened(j: string): string {
    var j1 := SubAll(SplitValue, j);
    var j2 := SubAll(CommaNewline, j1);
    var j3 := SubAll(BraceNewline, j2);
    var j4 := SubAll(NewlineBrace, j3);
    SubAll(Whitespace, j4)
  }

  /** The slice from the first `{` to the last `}`, when the first comes before the last. */
  function Candidate(t: string): Option<string> {
    var a := Find(t, '{');
    var b := FindLast(t, 0, |t|, '}');
    if a >= 0 && b > a then Some(t[a..b + 1]) else None
  }

  /** `extract_json_from_text(text)`. */
  function ExtractJson(text: string): string {
    match Candidate(Unfenced(text))
    case Some(j) => Flattened(j)
    case None => Unfenced(text)
  }

  /** Some `{` comes before some `}`. */
  predicate HasObject(t: string) {
    exists i, j :: 0 <= i < j < |t| && t[i] == '{' && t[j] == '}'
  }

  /** A candidate is found exactly when a `{` precedes a `}`. */
  lemma CandidateFound(t: string)
    ensures Candidate(t).Some? <==> HasObject(t)
  {
    FindLastSpec(t, 0, |t|, '}');
    if HasObject(t) {
      var i, j :| 0 <= i < j < |t| && t[i] == '{' && t[j] == '}';
      FirstBeforeLast(t, i, j);
    }
  }

  /** A candidate starts with `{` and ends with `}`. */
  lemma CandidateShape(t: string)
    ensures match Candidate(t)
      case Some(j) => |j| > 1 && j[0] == '{' && j[|j| - 1] == '}'
      case None => true
  {
    FindLastSpec(t, 0, |t|, '}');
  }

  lemma FirstBeforeLast(t: string, i: nat, j: nat)
    requires i < j < |t| && t[i] == '{' && t[j] == '}'
    ensures 0 <= Find(t, '{') <= i && j <= FindLast(t, 0, |t|, '}')
  {
    FindLastSpec(t, 0, |t|, '}');
  }

  /** The patterns of the flattening. */
  predicate Flattens(p: Pattern) {
    p == SplitValue || p == CommaNewline || p == BraceNewline || p == NewlineBrace || p == Whitespace
  }

  /** None of the flattening patterns rewrites an opening brace into anything else. */
  lemma OpenBraceHead(p: Pattern, s: string)
    requires Flattens(p) && |s| > 0 && s[0] == '{'
    ensures |Head(p, s, 0)| > 0 && Head(p, s, 0)[0] == '{'
  {
  }

  /**
   * The last step of a flattening pass over a text ending with `}` emits a
   * piece ending with `}`: a match there either cannot reach the end (it ends
   * in a quote or in whitespace) or is `\s*\n\s*}`, replaced by ` }`.
   */
  lemma CloseBraceHead(p: Pattern, s: string, k: nat)
    requires Flattens(p) && k < |s| && k + Step(p, s, k) == |s| && s[|s| - 1] == '}'
    ensures |Head(p, s, k)| > 0 && Head(p, s, k)[|Head(p, s, k)| - 1] == '}'
  {
    if MatchLen(p, s, k) == 0 {
      assert Head(p, s, k) == [s[k]];
    } else {
      assert k + MatchLen(p, s, k) == |s|;
      OnlyNewlineBraceEndsInBrace(p, s, k);
      assert Head(p, s, k) == " }";
    }
  }

  /**
   * Of the flattening patterns only `\s*\n\s*}` has a match ending in `}`;
   * the others end in a quote or in whitespace.
   */
  lemma OnlyNewlineBraceEndsInBrace(p: Pattern, s: string, k: nat)
    requires Flattens(p) && k < |s| && MatchLen(p, s, k) > 0
    ensures s[k + MatchLen(p, s, k) - 1] == '}' ==> p == NewlineBrace
  {
    match p
    case SplitValue => SplitValueAtSpec(s, k);
    case CommaNewline => NewlineRunAtSpec(s, k + 1);
    case BraceNewline => NewlineRunAtSpec(s, k + 1);
    case Whitespace => RunEndSpec(s, k, Space);
    case _ =>
  }

  /** A flattening pass keeps a text's first `{` and its last `}`. */
  lemma FlattenKeepsBraces(p: Pattern, s: string)
    requires Flattens(p) && |s| > 1 && s[0] == '{' && s[|s| - 1] == '}'
    ensures var r := SubAll(p, s); |r| > 1 && r[0] == '{' && r[|r| - 1] == '}'
  {
    var r := SubAll(p, s);
    SubUnfold(p, s, 0);
    OpenBraceHead(p, s);
    var k := SubLast(p, s, 0);
    CloseBraceHead(p, s, k);
    var h := Head(p, s, k);
    assert r[|r| - 1] == h[|h| - 1];
  }

  /** Every whitespace character is a plain space, and no two whitespace characters are adjacent. */
  predicate Collapsed(t: string) {
    forall k :: 0 <= k < |t| && IsSpace(t[k]) ==> t[k] == ' ' && (k + 1 < |t| ==> !IsSpace(t[k + 1]))
  }

  lemma CollapsedCons(c: char, t: string)
    requires Collapsed(t)
    requires IsSpace(c) ==> c == ' ' && (|t| > 0 ==> !IsSpace(t[0]))
    ensures Collapsed([c] + t)
  {
    var u := [c] + t;
    forall k | 0 <= k < |u| && IsSpace(u[k])
      ensures u[k] == ' ' && (k + 1 < |u| ==> !IsSpace(u[k + 1]))
    {
      if k > 0 {
        assert u[k] == t[k - 1];
        assert k + 1 < |u| ==> u[k + 1] == t[k];
      }
    }
  }

  /**
   * `re.sub(r'\s+', ' ', ...)` leaves a collapsed text: every whitespace
   * run has become a single space.
   */
  lemma {:induction false} WhitespaceCollapses(s: string, i: nat)
    requires i <= |s|
    ensures Collapsed(Sub(Whitespace, s, i))
    decreases |s| - i
  {
    if i < |s| {
      WhitespaceCollapses(s, i + Step(Whitespace, s, i));
      WhitespaceStep(s, i);
    } else {
      SubEnd(Whitespace, s);
    }
  }

  /** The step of `WhitespaceCollapses`: one run or character, then a collapsed rest. */
  lemma WhitespaceStep(s: string, i: nat)
    requires i < |s|
    requires Collapsed(Sub(Whitespace, s, i + Step(Whitespace, s, i)))
    ensures Collapsed(Sub(Whitespace, s, i))
  {
    var m := Step(Whitespace, s, i);
    var h, t := Head(Whitespace, s, i), Sub(Whitespace, s, i + m);
    SubUnfold(Whitespace, s, i);
    WhitespaceHead(s, i);
    if i + m < |s| {
      WhitespaceFirst(s, i + m);
    } else {
      SubEnd(Whitespace, s);
    }
    var c := if IsSpace(s[i]) then ' ' else s[i];
    assert h == [c];
    CollapsedCons(c, t);
  }

  /** The collapse of `s[i..]` starts with whitespace exactly when `s[i..]` does. */
  lemma WhitespaceFirst(s: string, i: nat)
    requires i < |s|
    ensures |Sub(Whitespace, s, i)| > 0 && (IsSpace(Sub(Whitespace, s, i)[0]) <==> IsSpace(s[i]))
  {
    SubUnfold(Whitespace, s, i);
    WhitespaceHead(s, i);
  }

  /** One step of the whitespace collapse: a whole run becomes one space. */
  lemma WhitespaceHead(s: string, i: nat)
    requires i < |s|
    ensures Head(Whitespace, s, i) == [if IsSpace(s[i]) then ' ' else s[i]]
    ensures IsSpace(s[i]) && i + Step(Whitespace, s, i) < |s| ==> !IsSpace(s[i + Step(Whitespace, s, i)])
  {
    RunEndSpec(s, i, Space);
  }

  /** A collapsed text holds no newline. */
  lemma CollapsedHasNoNewline(t: string)
    requires Collapsed(t)
    ensures '\n' !in t
  {
    if '\n' in t {
      var k :| 0 <= k < |t| && t[k] == '\n';
      assert IsSpace(t[k]);
    }
  }

  /** The flattening turns `{...}` into `{...}` and changes whitespace only. */
  lemma FlattenedProperties(j: string)
    requires |j| > 1 && j[0] == '{' && j[|j| - 1] == '}'
    ensures var r := Flattened(j);
      && |r| > 1 && r[0] == '{' && r[|r| - 1] == '}'
      && Collapsed(r) && '\n' !in r
      && Ink(r) == Ink(j)
  {
    var j1 := SubAll(SplitValue, j);
    var j2 := SubAll(CommaNewline, j1);
    var j3 := SubAll(BraceNewline, j2);
    var j4 := SubAll(NewlineBrace, j3);
    var r := SubAll(Whitespace, j4);
    FlattenKeepsBraces(SplitValue, j);
    FlattenKeepsBraces(CommaNewline, j1);
    FlattenKeepsBraces(BraceNewline, j2);
    FlattenKeepsBraces(NewlineBrace, j3);
    FlattenKeepsBraces(Whitespace, j4);
    SubAllKeeps(SplitValue, Spaces, j);
    SubAllKeeps(CommaNewline, Spaces, j1);
    SubAllKeeps(BraceNewline, Spaces, j2);
    SubAllKeeps(NewlineBrace, Spaces, j3);
    SubAllKeeps(Whitespace, Spaces, j4);
    WhitespaceCollapses(j4, 0);
    CollapsedHasNoNewline(r);
  }

  /**
   * When the unfenced reply has a `{` before a `}`, the isolated text starts
   * with `{` and ends with `}`, has no newline and no two adjacent whitespace
   * characters, and differs only in whitespace from the slice between the
   * first `{` and the last `}`; otherwise it is the unfenced reply itself.
   */
  lemma ExtractJsonProperties(text: string)
    ensures var t := Unfenced(text); var r := ExtractJson(text);
      && (HasObject(t) ==>
            && |r| > 1 && r[0] == '{' && r[|r| - 1] == '}'
            && Collapsed(r) && '\n' !in r
            && Ink(r) == Ink(Candidate(t).value))
      && (!HasObject(t) ==> r == t)
  {
    var t := Unfenced(text);
    CandidateFound(t);
    if HasObject(t) {
      var j := Candidate(t).value;
      CandidateShape(t);
      FlattenedProperties(j);
      assert ExtractJson(text) == Flattened(j);
    }
  }

  // ---------------------------------------------------------------------
  // The Tier-2 repair.

  /** `re.sub(r',\s*}', '}', ...)` followed by `re.sub(r',\s*\]', ']', ...)`. */
  function CommasDropped(c: string): string {
    SubAll(TrailingComma(']'), SubAll(TrailingComma('}'), c))
  }

  /** The repaired candidate: trailing commas dropped, then every `'` made `"`. */
  function Repaired(c: string): string {
    ReplaceChar(CommasDropped(c), '\'', '"')
  }

  /** The first non-whitespace character of `t`. */
  function FirstInk(t: string): Option<char> {
    if t == [] then None else if IsSpace(t[0]) then FirstInk(t[1..]) else Some(t[0])
  }

  /** No comma in `t` has `x` for its next non-whitespace character. */
  predicate NoCommaBefore(x: char, t: string) {
    t == [] || ((t[0] == ',' ==> FirstInk(t[1..]) != Some(x)) && NoCommaBefore(x, t[1..]))
  }

  lemma FirstInkCons(c: char, t: string)
    ensures FirstInk([c] + t) == if IsSpace(c) then FirstInk(t) else Some(c)
  {
    assert ([c] + t)[1..] == t;
  }

  lemma NoCommaBeforeCons(x: char, c: char, t: string)
    ensures NoCommaBefore(x, [c] + t) <==> (c == ',' ==> FirstInk(t) != Some(x)) && NoCommaBefore(x, t)
  {
    assert ([c] + t)[1..] == t;
  }

  /** The next non-whitespace character of `s` at or after `j`. */
  function InkAfter(s: string, j: nat): Option<char>
    requires j <= |s|
  {
    var e := RunEnd(s, j, Space);
    if e < |s| then Some(s[e]) else None
  }

  /** No comma of `s` from `i` on has `x` for its next non-whitespace character. */
  predicate CommaFreeFrom(x: char, s: string, i: nat)
    requires i <= |s|
  {
    forall k :: i <= k < |s| && s[k] == ',' ==> InkAfter(s, k + 1) != Some(x)
  }

  /** `FirstInk` of a suffix is `InkAfter` at its start. */
  lemma {:induction false} FirstInkAt(s: string, i: nat)
    requires i <= |s|
    ensures FirstInk(s[i..]) == InkAfter(s, i)
    decreases |s| - i
  {
    if i < |s| {
      assert s[i..] == [s[i]] + s[i + 1..];
      FirstInkCons(s[i], s[i + 1..]);
      FirstInkAt(s, i + 1);
    }
  }

  /** The two forms of "no comma followed by `x`" agree. */
  lemma {:induction false} CommaFreeIff(x: char, s: string, i: nat)
    requires i <= |s|
    ensures NoCommaBefore(x, s[i..]) <==> CommaFreeFrom(x, s, i)
    decreases |s| - i
  {
    if i < |s| {
      assert s[i..] == [s[i]] + s[i + 1..];
      NoCommaBeforeCons(x, s[i], s[i + 1..]);
      FirstInkAt(s, i + 1);
      CommaFreeIff(x, s, i + 1);
    }
  }

  /**
   * One pass of `re.sub(r',\s*d', d, ...)` over a text in which no comma
   * is followed by another comma: afterwards no comma is followed by `d`,
   * no comma is followed by any `x` that no comma was followed by before,
   * and the first non-whitespace character is unchanged unless it was a
   * dropped comma, which `d` then replaces.
   */
  lemma {:induction false} TrailingCommaPass(d: char, x: char, s: string, i: nat)
    requires d == '}' || d == ']'
    requires i <= |s|
    requires CommaFreeFrom(',', s, i)
    requires x == d || CommaFreeFrom(x, s, i)
    ensures PassResult(d, x, s, i)
    decreases |s| - i
  {
    var p := TrailingComma(d);
    if i == |s| {
      SubEnd(p, s);
    } else {
      var m := Step(p, s, i);
      TrailingCommaPass(d, x, s, i + m);
      TrailingCommaStep(d, x, s, i);
    }
  }

  /**
   * What one pass guarantees of a rewrite `r` of a text whose next
   * non-whitespace character is `n`: no comma followed by `x`, and the same
   * first non-whitespace character unless a dropped comma became `d`.
   */
  predicate PassOut(d: char, x: char, r: string, n: Option<char>) {
    && NoCommaBefore(x, r)
    && (FirstInk(r) == n || (n == Some(',') && FirstInk(r) == Some(d)))
  }

  /** What one pass guarantees about the rewrite of `s[i..]`. */
  predicate PassResult(d: char, x: char, s: string, i: nat)
    requires i <= |s|
  {
    PassOut(d, x, Sub(TrailingComma(d), s, i), InkAfter(s, i))
  }

  /** The step of `TrailingCommaPass`: from the rewrite after the step at `i` to the rewrite from `i`. */
  lemma TrailingCommaStep(d: char, x: char, s: string, i: nat)
    requires d == '}' || d == ']'
    requires i < |s|
    requires CommaFreeFrom(',', s, i)
    requires x == d || CommaFreeFrom(x, s, i)
    requires PassResult(d, x, s, i + Step(TrailingComma(d), s, i))
    ensures PassResult(d, x, s, i)
  {
    var p := TrailingComma(d);
    if MatchLen(p, s, i) > 0 {
      // a dropped comma: `d` is emitted in its place
      SubUnfold(p, s, i);
      DroppedComma(d, s, i);
      DroppedStep(d, x, Head(p, s, i), Sub(p, s, i + Step(p, s, i)), Sub(p, s, i));
    } else {
      TrailingCommaCopy(d, x, s, i);
    }
  }

  /** A copied character. */
  lemma TrailingCommaCopy(d: char, x: char, s: string, i: nat)
    requires i < |s| && MatchLen(TrailingComma(d), s, i) == 0
    requires CommaFreeFrom(',', s, i)
    requires x == d || CommaFreeFrom(x, s, i)
    requires PassResult(d, x, s, i + 1)
    ensures PassResult(d, x, s, i)
  {
    var p := TrailingComma(d);
    var r, h, t := Sub(p, s, i), Head(p, s, i), Sub(p, s, i + 1);
    SubUnfold(p, s, i);
    assert h == [s[i]];
    CopiedComma(d, x, s, i);
    CopiedStep(d, x, s[i], InkAfter(s, i + 1), h, t, r);
  }

  /** A match of `,\s*d` at `i` is a comma, and `d` replaces it. */
  lemma DroppedComma(d: char, s: string, i: nat)
    requires i < |s| && MatchLen(TrailingComma(d), s, i) > 0
    ensures s[i] == ',' && InkAfter(s, i) == Some(',') && Head(TrailingComma(d), s, i) == [d]
  {
  }

  /**
   * Where `,\s*d` does not match, a comma is not followed by `d`; the next
   * non-whitespace character at `i` is `s[i]` itself or the one after.
   */
  lemma CopiedComma(d: char, x: char, s: string, i: nat)
    requires i < |s| && MatchLen(TrailingComma(d), s, i) == 0
    requires CommaFreeFrom(',', s, i) && (x == d || CommaFreeFrom(x, s, i))
    ensures s[i] == ',' ==> (InkAfter(s, i + 1) != Some(d) && InkAfter(s, i + 1) != Some(',')
      && InkAfter(s, i + 1) != Some(x))
    ensures InkAfter(s, i) == if IsSpace(s[i]) then InkAfter(s, i + 1) else Some(s[i])
  {
  }

  /** The pass emits `d` for a dropped comma. */
  lemma DroppedStep(d: char, x: char, h: string, t: string, r: string)
    requires d == '}' || d == ']'
    requires NoCommaBefore(x, t) && r == h + t && h == [d]
    ensures NoCommaBefore(x, r) && FirstInk(r) == Some(d)
  {
    NoCommaBeforeCons(x, d, t);
    FirstInkCons(d, t);
  }

  /**
   * The pass copies `c` where `,\s*d` does not match; `n` is the next
   * non-whitespace character of the input after `c`, `t` the rewrite of the rest.
   */
  lemma CopiedStep(d: char, x: char, c: char, n: Option<char>, h: string, t: string, r: string)
    requires c == ',' ==> n != Some(x)
    requires NoCommaBefore(x, t) && r == h + t && h == [c]
    requires FirstInk(t) == n || (n == Some(',') && FirstInk(t) == Some(d))
    requires c == ',' ==> n != Some(',')
    ensures NoCommaBefore(x, r)
    ensures var f := FirstInk(r);
      var n' := if IsSpace(c) then n else Some(c);
      f == n' || (n' == Some(',') && f == Some(d))
  {
    NoCommaBeforeCons(x, c, t);
    FirstInkCons(c, t);
  }

  /**
   * When no comma of the candidate is followed by a comma, the repair leaves
   * no comma followed by `}` or `]`: every trailing comma is gone.
   */
  lemma CommasDroppedCloses(c: string)
    requires NoCommaBefore(',', c)
    ensures NoCommaBefore('}', CommasDropped(c)) && NoCommaBefore(']', CommasDropped(c))
  {
    var c1 := SubAll(TrailingComma('}'), c);
    assert c[0..] == c;
    CommaFreeIff(',', c, 0);
    TrailingCommaPass('}', '}', c, 0);
    TrailingCommaPass('}', ',', c, 0);
    assert c1[0..] == c1;
    CommaFreeIff(',', c1, 0);
    CommaFreeIff('}', c1, 0);
    TrailingCommaPass(']', ']', c1, 0);
    TrailingCommaPass(']', '}', c1, 0);
  }

  /** Replacing `'` by `"` changes no comma, bracket or whitespace. */
  lemma {:induction false} QuotesKeepFirstInk(t: string)
    ensures FirstInk(ReplaceChar(t, '\'', '"')) == match FirstInk(t)
      case None => None
      case Some(c) => Some(if c == '\'' then '"' else c)
    decreases |t|
  {
    if t != [] {
      var c := if t[0] == '\'' then '"' else t[0];
      assert ReplaceChar(t, '\'', '"') == [c] + ReplaceChar(t[1..], '\'', '"');
      assert t == [t[0]] + t[1..];
      FirstInkCons(c, ReplaceChar(t[1..], '\'', '"'));
      FirstInkCons(t[0], t[1..]);
      QuotesKeepFirstInk(t[1..]);
    }
  }

  lemma {:induction false} QuotesKeepCommaFree(x: char, t: string)
    requires x != '\'' && x != '"' && NoCommaBefore(x, t)
    ensures NoCommaBefore(x, ReplaceChar(t, '\'', '"'))
    decreases |t|
  {
    if t != [] {
      var c := if t[0] == '\'' then '"' else t[0];
      var r := ReplaceChar(t[1..], '\'', '"');
      assert ReplaceChar(t, '\'', '"') == [c] + r;
      assert t == [t[0]] + t[1..];
      NoCommaBeforeCons(x, t[0], t[1..]);
      NoCommaBeforeCons(x, c, r);
      QuotesKeepFirstInk(t[1..]);
      QuotesKeepCommaFree(x, t[1..]);
    }
  }

  /**
   * The repaired candidate has no `'` left and is no longer than the
   * candidate; dropping trailing commas removes only commas and whitespace,
   * and nothing at all when no comma is followed by `}` or `]`; and when no
   * comma of the candidate is followed by another comma, no comma of the
   * repaired text is followed by `}` or `]`.
   */
  lemma RepairedProperties(c: string)
    ensures var r := Repaired(c);
      && '\'' !in r && |r| <= |c|
      && Kept(SpacesAndCommas, CommasDropped(c)) == Kept(SpacesAndCommas, c)
      && (NoCommaBefore('}', c) && NoCommaBefore(']', c) ==> r == ReplaceChar(c, '\'', '"'))
      && (NoCommaBefore(',', c) ==> NoCommaBefore('}', r) && NoCommaBefore(']', r))
  {
    CommasDroppedExactly(c);
    var c1 := SubAll(TrailingComma('}'), c);
    var d := CommasDropped(c);
    SubShrinks(TrailingComma('}'), c, 0);
    SubShrinks(TrailingComma(']'), c1, 0);
    SubAllKeeps(TrailingComma('}'), SpacesAndCommas, c);
    SubAllKeeps(TrailingComma(']'), SpacesAndCommas, c1);
    if NoCommaBefore(',', c) {
      CommasDroppedCloses(c);
      QuotesKeepCommaFree('}', d);
      QuotesKeepCommaFree(']', d);
    }
  }

  /**
   * Without that condition the claim fails: in `,,}` only the second comma
   * is dropped, and the first is left before the `}`.
   */
  lemma DoubleCommaSurvives(c: string)
    requires c == ",,}"
    ensures Repaired(c) == ",}" && !NoCommaBefore('}', Repaired(c))
  {
    var p := TrailingComma('}');
    assert MatchLen(p, c, 0) == 0;
    assert MatchLen(p, c, 1) == 2;
    assert Sub(p, c, 3) == "";
    assert Sub(p, c, 1) == "}";
    assert SubAll(p, c) == ",}";
    var q := TrailingComma(']');
    var c1 := ",}";
    assert MatchLen(q, c1, 0) == 0 && MatchLen(q, c1, 1) == 0;
    assert Sub(q, c1, 2) == "";
    assert Sub(q, c1, 1) == "}";
    assert SubAll(q, c1) == ",}";
    assert ReplaceChar(",}", '\'', '"') == ",}";
    assert ",}"[1..] == "}";
    assert FirstInk("}") == Some('}');
  }

  /** `t` without its leading whitespace. */
  function TrimStart(t: string): (r: string)
    ensures |r| <= |t|
    decreases |t|
  {
    if t != [] && IsSpace(t[0]) then TrimStart(t[1..]) else t
  }

  lemma {:induction false} TrimStartAt(s: string, k: nat)
    requires k <= |s|
    ensures TrimStart(s[k..]) == s[RunEnd(s, k, Space)..]
    decreases |s| - k
  {
    if k < |s| && IsSpace(s[k]) {
      assert s[k..][1..] == s[k + 1..];
      TrimStartAt(s, k + 1);
    }
  }

  /**
   * What `re.sub(r',\s*d', d, t)` does, read over the text itself: a comma
   * whose next non-whitespace character is `d` is dropped together with the
   * whitespace after it; every other character is kept, in order.
   */
  function DropTrailing(d: char, t: string): string
    decreases |t|
  {
    if t == [] then []
    else if t[0] == ',' && FirstInk(t[1..]) == Some(d) then DropTrailing(d, TrimStart(t[1..]))
    else [t[0]] + DropTrailing(d, t[1..])
  }

  /** The scan of `,\s*d` from any index is the reference reading of the rest of the text. */
  lemma {:induction false} TrailingCommaIsDrop(d: char, s: string, i: nat)
    requires d == '}' || d == ']'
    requires i <= |s|
    ensures Sub(TrailingComma(d), s, i) == DropTrailing(d, s[i..])
    decreases |s| - i
  {
    if i == |s| {
      SubEnd(TrailingComma(d), s);
    } else {
      TrailingCommaIsDrop(d, s, i + Step(TrailingComma(d), s, i));
      DropStep(d, s, i);
    }
  }

  /** The step of `TrailingCommaIsDrop`. */
  lemma DropStep(d: char, s: string, i: nat)
    requires d == '}' || d == ']'
    requires i < |s|
    requires Sub(TrailingComma(d), s, i + Step(TrailingComma(d), s, i)) == DropTrailing(d, s[i + Step(TrailingComma(d), s, i)..])
    ensures Sub(TrailingComma(d), s, i) == DropTrailing(d, s[i..])
  {
    TrailingCommaAt(d, s, i);
    if MatchLen(TrailingComma(d), s, i) > 0 {
      DropStepMatched(d, s, i, RunEnd(s, i + 1, Space));
    } else {
      DropStepCopied(d, s, i);
    }
  }

  /** A dropped comma: the scan emits `d` and resumes past it, as the reading does. */
  lemma DropStepMatched(d: char, s: string, i: nat, j: nat)
    requires d == '}' || d == ']'
    requires i < j < |s| && j == RunEnd(s, i + 1, Space)
    requires s[i] == ',' && InkAfter(s, i + 1) == Some(d) && s[j] == d
    requires Sub(TrailingComma(d), s, i) == [d] + Sub(TrailingComma(d), s, j + 1)
    requires Sub(TrailingComma(d), s, j + 1) == DropTrailing(d, s[j + 1..])
    ensures Sub(TrailingComma(d), s, i) == DropTrailing(d, s[i..])
  {
    DropUnfold(d, s, i);
    DropAtBracket(d, s[j..]);
    assert s[j..][1..] == s[j + 1..];
  }

  /** A copied character. */
  lemma DropStepCopied(d: char, s: string, i: nat)
    requires i < |s| && !(s[i] == ',' && InkAfter(s, i + 1) == Some(d))
    requires Sub(TrailingComma(d), s, i) == [s[i]] + Sub(TrailingComma(d), s, i + 1)
    requires Sub(TrailingComma(d), s, i + 1) == DropTrailing(d, s[i + 1..])
    ensures Sub(TrailingComma(d), s, i) == DropTrailing(d, s[i..])
  {
    DropUnfold(d, s, i);
  }

  /** `DropTrailing` of `s[i..]`, one character at a time, in the indices of `s`. */
  lemma DropUnfold(d: char, s: string, i: nat)
    requires i < |s|
    ensures DropTrailing(d, s[i..]) ==
      if s[i] == ',' && InkAfter(s, i + 1) == Some(d) then DropTrailing(d, s[RunEnd(s, i + 1, Space)..])
      else [s[i]] + DropTrailing(d, s[i + 1..])
  {
    assert s[i..][0] == s[i] && s[i..][1..] == s[i + 1..];
    FirstInkAt(s, i + 1);
    TrimStartAt(s, i + 1);
  }

  /**
   * `,\s*d` matches at `i` exactly at a comma whose next non-whitespace
   * character is `d`; it emits `d` and resumes past it, or copies `s[i]`.
   */
  lemma TrailingCommaAt(d: char, s: string, i: nat)
    requires i < |s|
    ensures var p, j := TrailingComma(d), RunEnd(s, i + 1, Space);
      && (MatchLen(p, s, i) > 0 <==> s[i] == ',' && InkAfter(s, i + 1) == Some(d))
      && (MatchLen(p, s, i) > 0 ==> j < |s| && s[j] == d && Step(p, s, i) == j + 1 - i && Head(p, s, i) == [d])
      && (MatchLen(p, s, i) == 0 ==> Step(p, s, i) == 1 && Head(p, s, i) == [s[i]])
      && Sub(p, s, i) == Head(p, s, i) + Sub(p, s, i + Step(p, s, i))
  {
    SubUnfold(TrailingComma(d), s, i);
  }

  /** At the bracket itself the reading copies it. */
  lemma DropAtBracket(d: char, t: string)
    requires d != ',' && t != [] && t[0] == d
    ensures DropTrailing(d, t) == [d] + DropTrailing(d, t[1..])
  {
  }

  /**
   * The reference reading never lengthens the text, and it leaves the text
   * exactly as it is when no comma is followed by `d`; otherwise it is shorter.
   */
  lemma {:induction false} DropTrailingFrame(d: char, t: string)
    ensures |DropTrailing(d, t)| <= |t|
    ensures NoCommaBefore(d, t) ==> DropTrailing(d, t) == t
    ensures !NoCommaBefore(d, t) ==> |DropTrailing(d, t)| < |t|
    decreases |t|
  {
    if t != [] {
      if t[0] == ',' && FirstInk(t[1..]) == Some(d) {
        DropTrailingFrame(d, TrimStart(t[1..]));
        DroppedShorter(d, t);
      } else {
        DropTrailingFrame(d, t[1..]);
        CopiedFrame(d, t);
      }
    }
  }

  /** A dropped comma makes the reading shorter, and the text has a comma followed by `d`. */
  lemma DroppedShorter(d: char, t: string)
    requires t != [] && t[0] == ',' && FirstInk(t[1..]) == Some(d)
    requires |DropTrailing(d, TrimStart(t[1..]))| <= |TrimStart(t[1..])|
    ensures !NoCommaBefore(d, t) && |DropTrailing(d, t)| < |t|
  {
  }

  /** A copied first character: the three facts carry over from the rest of the text. */
  lemma CopiedFrame(d: char, t: string)
    requires t != [] && !(t[0] == ',' && FirstInk(t[1..]) == Some(d))
    requires |DropTrailing(d, t[1..])| <= |t[1..]|
    requires NoCommaBefore(d, t[1..]) ==> DropTrailing(d, t[1..]) == t[1..]
    requires !NoCommaBefore(d, t[1..]) ==> |DropTrailing(d, t[1..])| < |t[1..]|
    ensures |DropTrailing(d, t)| <= |t|
    ensures NoCommaBefore(d, t) ==> DropTrailing(d, t) == t
    ensures !NoCommaBefore(d, t) ==> |DropTrailing(d, t)| < |t|
  {
    assert t == [t[0]] + t[1..];
  }

  /**
   * The trailing-comma repair is the reference reading for `}` and then
   * for `]`, and it changes the candidate exactly when some comma of it is
   * followed, past whitespace, by `}` or `]`.
   */
  lemma CommasDroppedExactly(c: string)
    ensures CommasDropped(c) == DropTrailing(']', DropTrailing('}', c))
    ensures CommasDropped(c) == c <==> NoCommaBefore('}', c) && NoCommaBefore(']', c)
  {
    var c1 := SubAll(TrailingComma('}'), c);
    assert c[0..] == c;
    TrailingCommaIsDrop('}', c, 0);
    assert c1[0..] == c1;
    TrailingCommaIsDrop(']', c1, 0);
    DropTrailingFrame('}', c);
    DropTrailingFrame(']', c1);
    DropTrailingFrame(']', c);
  }

  // ---------------------------------------------------------------------
  // Tier 3: the regex salvage.

  /** How a field's value is written: a quoted string, digits and dots, or a quoted string or `null`. */
  datatype FieldKind = Quoted | Numeric | QuotedOrNull

  datatype Field = Field(key: string, kind: FieldKind)

  /** The ten fields of the salvaged record, in the order they are searched. */
  const Fields: seq<Field> := [
    Field("invoice_number", Quoted),
    Field("date", Quoted),
    Field("supplier", Quoted),
    Field("buyer", Quoted),
    Field("amount", Numeric),
    Field("vat", Numeric),
    Field("vat_rate", Numeric),
    Field("contract_number", QuotedOrNull),
    Field("payment_date", QuotedOrNull),
    Field("meter_number", QuotedOrNull)
  ]

  /** The keys of the fields `fs`. */
  function KeysOf(fs: seq<Field>): set<string> {
    set n | 0 <= n < |fs| :: fs[n].key
  }

  /** No two of the fields `fs` share a key. */
  predicate DistinctKeys(fs: seq<Field>) {
    forall m, n :: 0 <= m < n < |fs| ==> fs[m].key != fs[n].key
  }

  /** The ten keys. */
  function FieldKeys(): set<string> {
    KeysOf(Fields)
  }

  lemma FieldKeysDistinct()
    ensures DistinctKeys(Fields)
  {
  }

  /** `"([^"]*)"` at `b`: the text between the quotes. */
  function QuotedAt(s: string, b: nat): (r: Option<Option<string>>)
    requires b <= |s|
    ensures r.Some? ==> r.value.Some? && '"' !in r.value.value
  {
    if b < |s| && s[b] == '"' then
      var q := RunEnd(s, b + 1, NotQuote);
      RunEndSpec(s, b + 1, NotQuote);
      if q < |s| then Some(Some(s[b + 1..q])) else None
    else None
  }

  /** Every character of `g` is a digit or a dot. */
  predicate DigitsAndDots(g: string) {
    forall k :: 0 <= k < |g| ==> IsDigit(g[k]) || g[k] == '.'
  }

  /** `([0-9.]+)` at `b`: the longest run of digits and dots there. */
  function DigitsAt(s: string, b: nat): (r: Option<Option<string>>)
    requires b <= |s|
    ensures r.Some? ==> r.value.Some? && |r.value.value| > 0 && DigitsAndDots(r.value.value)
  {
    var e := RunEnd(s, b, DigitOrDot);
    RunEndSpec(s, b, DigitOrDot);
    if e > b then Some(Some(s[b..e])) else None
  }

  /**
   * The field's pattern `"key"\s*:\s*VALUE` tried at `k`: None when it does
   * not match there, otherwise its first group, which is None when the
   * `null` alternative matched.
   */
  function FieldMatchAt(f: Field, s: string, k: nat): (r: Option<Option<string>>)
    requires k <= |s|
    ensures r.Some? && r.value.None? ==> f.kind == QuotedOrNull
    ensures r.Some? && r.value.Some? && f.kind != Numeric ==> '"' !in r.value.value
    ensures r.Some? && r.value.Some? && f.kind == Numeric ==> |r.value.value| > 0 && DigitsAndDots(r.value.value)
  {
    var w := "\"" + f.key + "\"";
    if !LooksAt(s, k, w) then None
    else
      var a := RunEnd(s, k + |w|, Space);
      if a == |s| || s[a] != ':' then None
      else
        var b := RunEnd(s, a + 1, Space);
        match f.kind
        case Quoted => QuotedAt(s, b)
        case Numeric => DigitsAt(s, b)
        case QuotedOrNull =>
          if QuotedAt(s, b).Some? then QuotedAt(s, b)
          else if LooksAt(s, b, "null") then Some(None)
          else None
  }

  /** `re.search`: the leftmost position from `k` on where the field's pattern matches. */
  function Search(f: Field, s: string, k: nat): (r: Option<nat>)
    requires k <= |s|
    ensures r.Some? ==> k <= r.value < |s| && FieldMatchAt(f, s, r.value).Some?
    ensures forall j :: k <= j < |s| && (r.None? || j < r.value) ==> FieldMatchAt(f, s, j).None?
    decreases |s| - k
  {
    if k == |s| then None
    else if FieldMatchAt(f, s, k).Some? then Some(k)
    else Search(f, s, k + 1)
  }

  function DigitValue(c: char): nat
    requires IsDigit(c)
  {
    (c as int - '0' as int) as nat
  }

  predicate AllDigits(d: string) {
    forall k :: 0 <= k < |d| ==> IsDigit(d[k])
  }

  /** The number a string of decimal digits denotes. */
  function DigitsValue(d: string): nat
    requires AllDigits(d)
    decreases |d|
  {
    if d == [] then 0 else DigitsValue(d[..|d| - 1]) * 10 + DigitValue(d[|d| - 1])
  }

  function Pow10(n: nat): (r: nat)
    ensures r > 0
  {
    if n == 0 then 1 else 10 * Pow10(n - 1)
  }

  /**
   * `float(g)` for a string of digits and dots: the decimal it denotes, or
   * None where Python raises `ValueError`.
   */
  function ParseDecimal(g: string): Option<real> {
    var dot := Find(g, '.');
    if dot < 0 then
      if |g| > 0 && AllDigits(g) then Some(DigitsValue(g) as real) else None
    else
      var w, f := g[..dot], g[dot + 1..];
      if AllDigits(w) && AllDigits(f) && |w| + |f| > 0 then
        Some(DigitsValue(w) as real + DigitsValue(f) as real / Pow10(|f|) as real)
      else None
  }

  /**
   * What the salvage records for a match whose first group is `group`:
   * an empty or missing group is `None`, and a numeric field holds the
   * number its digits denote, or `None` where `float` fails.
   */
  function GroupValue(kind: FieldKind, group: Option<string>): (v: Json)
    ensures v.JString? ==> kind != Numeric && group == Some(v.s) && v.s != ""
    ensures v.JNumber? ==> kind == Numeric && group.Some? && ParseDecimal(group.value) == Some(v.n)
    ensures v.JNull? || v.JString? || v.JNumber?
    ensures group.Some? && group.value != "" && kind != Numeric ==> v == JString(group.value)
    ensures group.Some? && kind == Numeric && ParseDecimal(group.value).Some? ==> v == JNumber(ParseDecimal(group.value).value)
    ensures v.JNull? <==> group.None? || group.value == "" || (kind == Numeric && ParseDecimal(group.value).None?)
  {
    match group
    case None => JNull
    case Some(g) =>
      if g == "" then JNull
      else if kind == Numeric then
        match ParseDecimal(g)
        case Some(x) => JNumber(x)
        case None => JNull
      else JString(g)
  }

  /** The value the salvage records for a field of the text `s`. */
  function FieldValue(f: Field, s: string): (v: Json)
    ensures Search(f, s, 0).None? ==> v == JNull
    ensures Search(f, s, 0).Some? ==> v == GroupValue(f.kind, FieldMatchAt(f, s, Search(f, s, 0).value).value)
    ensures v.JString? ==> f.kind != Numeric && v.s != "" && '"' !in v.s
  {
    match Search(f, s, 0)
    case None => JNull
    case Some(k) => GroupValue(f.kind, FieldMatchAt(f, s, k).value)
  }

  /** The record before the search: every key of `fs` mapped to `None`. */
  function Blank(fs: seq<Field>): (m: map<string, Json>)
    ensures m.Keys == KeysOf(fs)
  {
    map k | k in KeysOf(fs) :: JNull
  }

  /** The values found for the ten fields, in their order. */
  function Values(s: string): (vs: seq<Json>)
    ensures |vs| == |Fields|
    ensures forall n :: 0 <= n < |Fields| ==> vs[n] == FieldValue(Fields[n], s)
  {
    seq(|Fields|, n requires 0 <= n < |Fields| => FieldValue(Fields[n], s))
  }

  /** The record once the first `n` of the values `vs` have been stored under the keys of `fs`. */
  function Filled(fs: seq<Field>, vs: seq<Json>, n: nat): map<string, Json>
    requires n <= |vs| == |fs|
  {
    if n == 0 then Blank(fs) else Filled(fs, vs, n - 1)[fs[n - 1].key := vs[n - 1]]
  }

  /** With distinct keys, the first `n` fields hold their values and the others are still `None`. */
  lemma {:induction false} FilledShape(fs: seq<Field>, vs: seq<Json>, n: nat)
    requires n <= |vs| == |fs| && DistinctKeys(fs)
    ensures Filled(fs, vs, n).Keys == KeysOf(fs)
    ensures forall m :: 0 <= m < n ==> Filled(fs, vs, n)[fs[m].key] == vs[m]
    ensures forall m :: n <= m < |fs| ==> Filled(fs, vs, n)[fs[m].key] == JNull
  {
    if n > 0 {
      FilledShape(fs, vs, n - 1);
      var key := fs[n - 1].key;
      assert key in KeysOf(fs);
      forall m | 0 <= m < n - 1
        ensures Filled(fs, vs, n)[fs[m].key] == vs[m]
      {
        assert fs[m].key != key;
      }
      forall m | n <= m < |fs|
        ensures Filled(fs, vs, n)[fs[m].key] == JNull
      {
        assert fs[m].key != key;
      }
    }
  }

  /** The salvaged record: every one of the ten keys, with its field's value. */
  function SalvageObject(s: string): (m: map<string, Json>)
    ensures m.Keys == FieldKeys()
    ensures forall n :: 0 <= n < |Fields| ==> m[Fields[n].key] == FieldValue(Fields[n], s)
  {
    FieldKeysDistinct();
    FilledShape(Fields, Values(s), |Fields|);
    Filled(Fields, Values(s), |Fields|)
  }

  /** `parse_json_robust`'s Tier-3 loop: search each field's pattern and record what it finds. */
  method Salvage(s: string) returns (result: map<string, Json>)
    ensures result == SalvageObject(s)
  {
    result := Blank(Fields);
    for i := 0 to |Fields|
      invariant result == Filled(Fields, Values(s), i)
    {
      var f := Fields[i];
      FilledStep(s, i);
      var found := Search(f, s, 0);
      if found.Some? {
        var group := FieldMatchAt(f, s, found.value).value;
        result := result[f.key := GroupValue(f.kind, group)];
      }
    }
  }

  /** One turn of the loop: a field whose pattern finds nothing keeps its `None`. */
  lemma FilledStep(s: string, i: nat)
    requires i < |Fields|
    ensures var f := Fields[i]; var found := Search(f, s, 0); var vs := Values(s);
      Filled(Fields, vs, i + 1) == if found.Some? then Filled(Fields, vs, i)[f.key := GroupValue(f.kind, FieldMatchAt(f, s, found.value).value)]
        else Filled(Fields, vs, i)
  {
    var f := Fields[i];
    var vs := Values(s);
    if Search(f, s, 0).None? {
      FieldKeysDistinct();
      FilledShape(Fields, vs, i);
      assert vs[i] == JNull;
      UpdateSame(Filled(Fields, vs, i), f.key);
    }
  }

  /** Storing the value a key already holds changes nothing. */
  lemma UpdateSame(m: map<string, Json>, k: string)
    requires k in m
    ensures m[k := m[k]] == m
  {
  }

  /** Salvaging `{"amount": 500}` recovers the amount as the number 500. */
  lemma SalvageAmount()
    ensures var m := SalvageObject("{\"amount\": 500}"); "amount" in m && m["amount"] == JNumber(500.0)
  {
    var s := "{\"amount\": 500}";
    assert Fields[4] == Field("amount", Numeric);
    assert Fields[4].key in KeysOf(Fields);
    AmountValue(s);
  }

  /** The amount field of `{"amount": 500}` holds the number 500. */
  lemma AmountValue(s: string)
    requires s == "{\"amount\": 500}"
    ensures FieldValue(Field("amount", Numeric), s) == JNumber(500.0)
  {
    AmountFound(s);
    FiveHundred();
  }

  /** In `{"amount": 500}` the amount pattern first matches at index 1, and its group is "500". */
  lemma AmountFound(s: string)
    requires s == "{\"amount\": 500}"
    ensures Search(Field("amount", Numeric), s, 0) == Some(1)
    ensures FieldMatchAt(Field("amount", Numeric), s, 1) == Some(Some("500"))
  {
    NoAmountAtBrace(s);
    AmountAtQuote(s);
  }

  /** The pattern does not match at the opening brace. */
  lemma NoAmountAtBrace(s: string)
    requires s == "{\"amount\": 500}"
    ensures FieldMatchAt(Field("amount", Numeric), s, 0).None?
  {
    assert "\"" + "amount" + "\"" == "\"amount\"";
    assert !LooksAt(s, 0, "\"amount\"") by {
      assert s[0..8][0] == '{';
    }
  }

  /** The pattern matches at the quote before the key, with the group "500". */
  lemma AmountAtQuote(s: string)
    requires s == "{\"amount\": 500}"
    ensures FieldMatchAt(Field("amount", Numeric), s, 1) == Some(Some("500"))
  {
    assert "\"" + "amount" + "\"" == "\"amount\"";
    assert LooksAt(s, 1, "\"amount\"") by {
      assert s[1..9] == "\"amount\"";
    }
    assert RunEnd(s, 9, Space) == 9;
    assert RunEnd(s, 10, Space) == 11;
    DigitsEnd(s);
  }

  /** The digits of `{"amount": 500}` run from index 11 to index 14. */
  lemma DigitsEnd(s: string)
    requires s == "{\"amount\": 500}"
    ensures RunEnd(s, 11, DigitOrDot) == 14 && s[11..14] == "500"
  {
    assert s[14] == '}' && IsDigit(s[13]) && IsDigit(s[12]) && IsDigit(s[11]);
    assert RunEnd(s, 14, DigitOrDot) == 14;
    assert RunEnd(s, 13, DigitOrDot) == 14;
    assert RunEnd(s, 12, DigitOrDot) == 14;
    assert s[11..14] == [s[11], s[12], s[13]];
  }

  /** `float("500")` is 500. */
  lemma FiveHundred()
    ensures ParseDecimal("500") == Some(500.0)
  {
    assert Find("500", '.') == -1;
    assert DigitsValue("500") == 500 by {
      assert "500"[..2] == "50" && "50"[..1] == "5" && "5"[..0] == "";
    }
  }

  /** What `parse_json_robust(text)` returns, with `loads` standing for `json.loads`. */
  function Parsed(text: string, loads: string -> Option<Json>): Json {
    var c := ExtractJson(text);
    match loads(c)
    case Some(v) => v
    case None =>
      var r := Repaired(c);
      match loads(r)
      case Some(v) => v
      case None => JObject(SalvageObject(r))
  }

  /**
   * `parse_json_robust(text)`: the strict parse of the isolated candidate,
   * else the parse of the repaired candidate, else the salvaged record of
   * the REPAIRED candidate; it never fails.
   */
  method ParseJsonRobust(text: string, loads: string -> Option<Json>) returns (v: Json)
    ensures v == Parsed(text, loads)
    ensures var c := ExtractJson(text);
      && (loads(c).Some? ==> v == loads(c).value)
      && (loads(c).None? && loads(Repaired(c)).Some? ==> v == loads(Repaired(c)).value)
      && (loads(c).None? && loads(Repaired(c)).None? ==> v == JObject(SalvageObject(Repaired(c))))
  {
    var c := ExtractJson(text);
    var strict := loads(c);
    if strict.Some? {
      return strict.value;
    }
    var r := Repaired(c);
    var repaired := loads(r);
    if repaired.Some? {
      return repaired.value;
    }
    var record := Salvage(r);
    v := JObject(record);
  }

  /**
   * `float` accepts a digits-and-dots string exactly when it holds at most
   * one dot and at least one digit.
   */
  lemma ParseDecimalDefined(g: string)
    requires DigitsAndDots(g)
    ensures ParseDecimal(g).Some? <==> multiset(g)['.'] <= 1 && exists k :: 0 <= k < |g| && IsDigit(g[k])
  {
    var dot := Find(g, '.');
    if dot < 0 {
      assert '.' !in g;
      assert AllDigits(g);
    } else {
      var w, f := g[..dot], g[dot + 1..];
      DotCount(g, dot);
      assert AllDigits(w);
      assert AllDigits(f) <==> '.' !in f;
      if AllDigits(f) {
        DigitWitness(g, dot);
      }
    }
  }

  lemma DotCount(g: string, dot: nat)
    requires dot < |g| && g[dot] == '.' && '.' !in g[..dot]
    ensures multiset(g)['.'] == 1 + multiset(g[dot + 1..])['.']
  {
    assert g == g[..dot] + [g[dot]] + g[dot + 1..];
    assert multiset(g[..dot])['.'] == 0;
  }

  /** When the first dot is the only one, some digit exists exactly when the dot is not alone. */
  lemma DigitWitness(g: string, dot: nat)
    requires dot < |g| && g[dot] == '.' && AllDigits(g[..dot]) && AllDigits(g[dot + 1..])
    ensures (exists k :: 0 <= k < |g| && IsDigit(g[k])) <==> |g| > 1
  {
    if |g| > 1 {
      var k := if dot > 0 then 0 else 1;
      assert k < dot ==> g[k] == g[..dot][k];
      assert k > dot ==> g[k] == g[dot + 1..][k - dot - 1];
      assert IsDigit(g[k]);
    }
  }

  /** A lone dot and a number with two dots are not numbers: they salvage as `None`. */
  lemma ParseDecimalRejects(a: string, b: string)
    requires a == "." && b == "1.2.3"
    ensures ParseDecimal(a) == None && ParseDecimal(b) == None
  {
    assert a[0] == '.';
    assert Find(a, '.') == 0;
    assert b[0] != '.' && b[1] == '.';
    assert Find(b, '.') == 1;
    assert b[2..][1] == '.';
  }

  /** `20.5` denotes twenty and a half. */
  lemma ParseDecimalReads(g: string)
    requires g == "20.5"
    ensures ParseDecimal(g) == Some(20.5)
  {
    assert g[0] != '.' && g[1] != '.' && g[2] == '.';
    assert Find(g, '.') == 2;
    assert g[..2] == "20" && g[3..] == "5";
    assert DigitsValue("2") == 2;
    assert DigitsValue("20") == 20;
    assert DigitsValue("5") == 5;
  }
}
