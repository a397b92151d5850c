/**
 * Character classes and the few `str` methods the auditor relies on:
 * `str.strip()`, `str.find` and `str.rfind`, `str.replace` of one character,
 * and slicing with `s[:n]`.
 */
module Text {

  /** Python's `\s` in a `str` pattern, and `str.isspace()`: Unicode whitespace. */
  predicate IsSpace(c: char) {
    c == ' ' || '\t' <= c <= '\r' || '\U{1C}' <= c <= '\U{1F}'
    || c == '\U{85}' || c == '\U{A0}' || c == '\U{1680}'
    || '\U{2000}' <= c <= '\U{200A}' || c == '\U{2028}' || c == '\U{2029}'
    || c == '\U{202F}' || c == '\U{205F}' || c == '\U{3000}'
  }

  /** The character class `[а-яА-ЯЁё]`: the Russian alphabet, both cases. */
  predicate IsCyrillic(c: char) {
    'а' <= c <= 'я' || 'А' <= c <= 'Я' || c == 'Ё' || c == 'ё'
  }

  /** The character class `[0-9]`. */
  predicate IsDigit(c: char) {
    '0' <= c <= '9'
  }

  predicate AllSpace(s: string) {
    forall k :: 0 <= k < |s| ==> IsSpace(s[k])
  }

  /** What a rewrite is allowed to drop: whitespace only, or whitespace and commas. */
  datatype Erasure = Spaces | SpacesAndCommas

  predicate Erased(e: Erasure, c: char) {
    IsSpace(c) || (e == SpacesAndCommas && c == ',')
  }

  /**
   * A list of characters. The characters a text keeps are collected in such
   * a list, so that two texts keep the same characters exactly when the
   * two lists are equal.
   */
  datatype Chars = Nil | Cons(head: char, tail: Chars)

  /** The characters of `a`, then those of `b`. */
  function Cat(a: Chars, b: Chars): Chars {
    match a
    case Nil => b
    case Cons(c, t) => Cons(c, Cat(t, b))
  }

  lemma {:induction false} CatNil(a: Chars)
    ensures Cat(a, Nil) == a
  {
    match a
    case Nil =>
    case Cons(_, t) => CatNil(t);
  }

  lemma {:induction false} CatAssoc(a: Chars, b: Chars, c: Chars)
    ensures Cat(Cat(a, b), c) == Cat(a, Cat(b, c))
  {
    match a
    case Nil =>
    case Cons(_, t) => CatAssoc(t, b, c);
  }

  /** The characters of `s[x..y]` that `e` does not erase, in their order. */
  function KeptIn(e: Erasure, s: string, x: nat, y: nat): Chars
    requires x <= y <= |s|
    decreases y - x
  {
    if x == y then Nil
    else if Erased(e, s[x]) then KeptIn(e, s, x + 1, y)
    else Cons(s[x], KeptIn(e, s, x + 1, y))
  }

  /** The characters of `s` that `e` does not erase, in their order. */
  function Kept(e: Erasure, s: string): Chars {
    KeptIn(e, s, 0, |s|)
  }

  /** The non-whitespace content of a text. */
  function Ink(s: string): Chars {
    Kept(Spaces, s)
  }

  lemma {:induction false} KeptInSplit(e: Erasure, s: string, x: nat, y: nat, z: nat)
    requires x <= y <= z <= |s|
    ensures KeptIn(e, s, x, z) == Cat(KeptIn(e, s, x, y), KeptIn(e, s, y, z))
    decreases y - x
  {
    if x < y {
      KeptInSplit(e, s, x + 1, y, z);
    }
  }

  /** Two stretches holding the same characters keep the same characters. */
  lemma {:induction false} KeptInShift(e: Erasure, s: string, x: nat, y: nat, t: string, d: nat)
    requires x <= y <= |s| && y + d <= |t|
    requires forall k :: x <= k < y ==> s[k] == t[k + d]
    ensures KeptIn(e, s, x, y) == KeptIn(e, t, x + d, y + d)
    decreases y - x
  {
    if x < y {
      KeptInShift(e, s, x + 1, y, t, d);
    }
  }

  lemma {:induction false} KeptInErased(e: Erasure, s: string, x: nat, y: nat)
    requires x <= y <= |s|
    requires forall k :: x <= k < y ==> Erased(e, s[k])
    ensures KeptIn(e, s, x, y) == Nil
    decreases y - x
  {
    if x < y {
      KeptInErased(e, s, x + 1, y);
    }
  }

  lemma KeptInSpaces(e: Erasure, s: string, x: nat, y: nat)
    requires x <= y <= |s|
    requires forall k :: x <= k < y ==> IsSpace(s[k])
    ensures KeptIn(e, s, x, y) == Nil
  {
    KeptInErased(e, s, x, y);
  }

  /** `KeptIn` is `Kept` of the slice. */
  lemma KeptOfSlice(e: Erasure, s: string, x: nat, y: nat)
    requires x <= y <= |s|
    ensures Kept(e, s[x..y]) == KeptIn(e, s, x, y)
  {
    KeptInShift(e, s[x..y], 0, y - x, s, x);
  }

  lemma KeptConcat(e: Erasure, a: string, b: string)
    ensures Kept(e, a + b) == Cat(Kept(e, a), Kept(e, b))
  {
    var c := a + b;
    KeptInSplit(e, c, 0, |a|, |c|);
    KeptInShift(e, a, 0, |a|, c, 0);
    KeptInShift(e, b, 0, |b|, c, |a|);
  }

  lemma KeptOfSpaces(e: Erasure, s: string)
    requires AllSpace(s)
    ensures Kept(e, s) == Nil
  {
    KeptInErased(e, s, 0, |s|);
  }

  lemma KeptOfOne(e: Erasure, c: char)
    ensures Kept(e, [c]) == if Erased(e, c) then Nil else Cons(c, Nil)
  {
    assert KeptIn(e, [c], 1, 1) == Nil;
  }

  /** Kept over a split of a string at `k`. */
  lemma KeptSplit(e: Erasure, s: string, k: nat)
    requires k <= |s|
    ensures Kept(e, s) == Cat(Kept(e, s[..k]), Kept(e, s[k..]))
  {
    assert s == s[..k] + s[k..];
    KeptConcat(e, s[..k], s[k..]);
  }

  /** Nothing is kept from `s[x..y]` exactly when every character there is erased. */
  lemma {:induction false} KeptInEmptyIffErased(e: Erasure, s: string, x: nat, y: nat)
    requires x <= y <= |s|
    ensures KeptIn(e, s, x, y) == Nil <==> forall k :: x <= k < y ==> Erased(e, s[k])
    decreases y - x
  {
    if x < y {
      KeptInEmptyIffErased(e, s, x + 1, y);
    }
  }

  /** A text has no ink exactly when it is all whitespace. */
  lemma InkEmptyIffBlank(s: string)
    ensures Ink(s) == Nil <==> AllSpace(s)
  {
    KeptInEmptyIffErased(Spaces, s, 0, |s|);
  }

  /** Removing one erased character keeps the same characters. */
  lemma KeptDrop(e: Erasure, s: string, k: nat)
    requires k < |s| && Erased(e, s[k])
    ensures Kept(e, s[..k] + s[k + 1..]) == Kept(e, s)
  {
    KeptConcat(e, s[..k], s[k + 1..]);
    KeptOfSlice(e, s, 0, k);
    KeptOfSlice(e, s, k + 1, |s|);
    assert s[..k] == s[0..k] && s[k + 1..] == s[k + 1..|s|];
    KeptInSplit(e, s, 0, k, |s|);
  }

  /** The first index at or after `i` that does not hold whitespace, or `|s|`. */
  function SkipSpace(s: string, i: nat): (j: nat)
    requires i <= |s|
    ensures i <= j <= |s|
    ensures forall k :: i <= k < j ==> IsSpace(s[k])
    ensures j < |s| ==> !IsSpace(s[j])
    decreases |s| - i
  {
    if i < |s| && IsSpace(s[i]) then SkipSpace(s, i + 1) else i
  }

  /** The index just past the last character of `s[lo..hi]` that is not whitespace, or `lo`. */
  function BackSpace(s: string, lo: nat, hi: nat): (j: nat)
    requires lo <= hi <= |s|
    ensures lo <= j <= hi
    ensures forall k :: j <= k < hi ==> IsSpace(s[k])
    ensures j > lo ==> !IsSpace(s[j - 1])
    decreases hi - lo
  {
    if lo < hi && IsSpace(s[hi - 1]) then BackSpace(s, lo, hi - 1) else hi
  }

  /** Where `str.strip()` starts: past the leading whitespace. */
  function StripOffset(s: string): nat {
    SkipSpace(s, 0)
  }

  /** Where `str.strip()` ends: before the trailing whitespace. */
  function StripEnd(s: string): (j: nat)
    ensures StripOffset(s) <= j <= |s|
  {
    BackSpace(s, StripOffset(s), |s|)
  }

  /**
   * `str.strip()` with no argument: the text between its leading and its
   * trailing whitespace, which begins and ends with a character that is not
   * whitespace.
   */
  function Strip(s: string): (r: string)
    ensures |r| > 0 ==> !IsSpace(r[0]) && !IsSpace(r[|r| - 1])
  {
    s[StripOffset(s)..StripEnd(s)]
  }

  /** Stripping drops whitespace only. */
  lemma StripKeepsInk(e: Erasure, s: string)
    ensures Kept(e, Strip(s)) == Kept(e, s)
  {
    var a, b := StripOffset(s), StripEnd(s);
    KeptOfSlice(e, s, a, b);
    KeptInSplit(e, s, 0, a, |s|);
    KeptInSplit(e, s, a, b, |s|);
    KeptInSpaces(e, s, 0, a);
    KeptInSpaces(e, s, b, |s|);
    CatNil(KeptIn(e, s, a, b));
  }

  /** A text strips to the empty string exactly when it is all whitespace. */
  lemma StripEmptyIffBlank(s: string)
    ensures Strip(s) == [] <==> AllSpace(s)
  {
    var a, b := StripOffset(s), StripEnd(s);
    if AllSpace(s) {
      assert a == |s|;
    }
    if a == b {
      assert forall k :: 0 <= k < |s| ==> IsSpace(s[k]);
    }
  }

  /** `s.find(c)`: the first index holding `c`, or -1. */
  function Find(s: string, c: char): (r: int)
    ensures -1 <= r < |s|
    ensures r >= 0 ==> s[r] == c
    ensures forall k :: 0 <= k < |s| && (r < 0 || k < r) ==> s[k] != c
    decreases |s|
  {
    if s == [] then -1
    else if s[0] == c then 0
    else
      var r := Find(s[1..], c);
      if r < 0 then -1 else r + 1
  }

  /** The last index in `[lo, hi)` holding `c`, or `lo - 1`; with `lo = 0` this is `rfind`. */
  function FindLast(s: string, lo: nat, hi: nat, c: char): (r: int)
    requires lo <= hi <= |s|
    ensures lo - 1 <= r < hi
    decreases hi - lo
  {
    if lo == hi then lo - 1
    else if s[hi - 1] == c then hi - 1
    else FindLast(s, lo, hi - 1, c)
  }

  /** `FindLast` finds `c`, and no later index in the range holds it. */
  lemma {:induction false} FindLastSpec(s: string, lo: nat, hi: nat, c: char)
    requires lo <= hi <= |s|
    ensures FindLast(s, lo, hi, c) >= lo ==> s[FindLast(s, lo, hi, c)] == c
    ensures forall k :: lo <= k < hi && k > FindLast(s, lo, hi, c) ==> s[k] != c
    decreases hi - lo
  {
    if lo < hi && s[hi - 1] != c {
      FindLastSpec(s, lo, hi - 1, c);
    }
  }

  /** `s[:n]`. */
  function Prefix(s: string, n: nat): (r: string)
    ensures |r| == if |s| < n then |s| else n
    ensures r == s[..|r|]
  {
    if |s| <= n then s else s[..n]
  }

  /** `s.replace(from, to)` for one-character arguments. */
  function ReplaceChar(s: string, from: char, to: char): (r: string)
    ensures |r| == |s|
    ensures forall k :: 0 <= k < |s| ==> r[k] == if s[k] == from then to else s[k]
    decreases |s|
  {
    if s == [] then []
    else [if s[0] == from then to else s[0]] + ReplaceChar(s[1..], from, to)
  }
}
