/**
 * What Altium_TODO/Altium_TODO.py does with the two groups of a match: the colour of
 * the description, chosen from the TODO text, and the clean-up of the description,
 *   re.sub(r'\n\d+', '\n', description.replace("~", "\n")).lstrip('0123456789')
 * which turns every `~` into a line break and removes the digits that start each line.
 */
module TodoText {

  /** The two colours a description can be shown in. */
  datatype Color = Green | Cyan

  /** Cyan for a TODO with a suffix (one holding `_`), green otherwise. */
  function DescriptionColor(todo: string): (c: Color)
    ensures c == Cyan <==> '_' in todo
  {
    if '_' in todo then Cyan else Green
  }

  predicate IsDigit(c: char) { '0' <= c <= '9' }

  /** `s.replace("~", "\n")`. */
  function ReplaceTilde(s: string): (r: string)
    ensures |r| == |s|
  {
    if s == [] then [] else [if s[0] == '~' then '\n' else s[0]] + ReplaceTilde(s[1..])
  }

  /** Every `~` becomes a line break; every other character stays where it was. */
  lemma {:induction false} ReplaceTildeAt(s: string, i: nat)
    requires i < |s|
    ensures ReplaceTilde(s)[i] == if s[i] == '~' then '\n' else s[i]
  {
    if i > 0 {
      ReplaceTildeAt(s[1..], i - 1);
    }
  }

  /** `s.lstrip('0123456789')`. */
  function LStripDigits(s: string): (r: string)
    ensures |r| <= |s|
    ensures forall k :: 0 <= k < |s| - |r| ==> IsDigit(s[k])
    ensures r == [] || !IsDigit(r[0])
  {
    if s != [] && IsDigit(s[0]) then LStripDigits(s[1..]) else s
  }

  /** `lstrip('0123456789')` only removes characters: what is left is a suffix of the input. */
  lemma {:induction false} LStripDigitsIsSuffix(s: string)
    ensures LStripDigits(s) == s[|s| - |LStripDigits(s)|..]
  {
    if s != [] && IsDigit(s[0]) {
      LStripDigitsIsSuffix(s[1..]);
    }
  }

  /**
   * `re.sub(r'\n\d+', '\n', s)`: left to right, a line break followed by one or more
   * digits is replaced by the line break alone, and scanning resumes after the digits.
   */
  function SubNewlineDigits(s: string): string
    decreases |s|
  {
    if s == [] then []
    else if s[0] == '\n' && |s| > 1 && IsDigit(s[1]) then "\n" + SubNewlineDigits(LStripDigits(s[1..]))
    else [s[0]] + SubNewlineDigits(s[1..])
  }

  /** The description as the script stores it. */
  function CleanDescription(raw: string): (r: string)
    ensures r == StripLineHeads(ReplaceTilde(raw), true)
  {
    SubIsStripLineHeads(ReplaceTilde(raw));
    LStripThenStripLineHeads(ReplaceTilde(raw));
    LStripDigits(SubNewlineDigits(ReplaceTilde(raw)))
  }

  /**
   * Reference reading of the clean-up, one character at a time: `atLineStart` holds at
   * the start of the text and after each line break, and a digit seen there is dropped
   * (keeping `atLineStart`); every other character is kept.
   */
  function StripLineHeads(s: string, atLineStart: bool): string
    decreases |s|
  {
    if s == [] then []
    else if atLineStart && IsDigit(s[0]) then StripLineHeads(s[1..], true)
    else [s[0]] + StripLineHeads(s[1..], s[0] == '\n')
  }

  /** At a line start, dropping the leading digits first changes nothing. */
  lemma {:induction false} StripLineHeadsAtStart(t: string)
    ensures StripLineHeads(t, true) == StripLineHeads(LStripDigits(t), false)
    decreases |t|
  {
    if t != [] && IsDigit(t[0]) {
      StripLineHeadsAtStart(t[1..]);
    }
  }

  /** The regular-expression substitution drops exactly the digits that open a line after a break. */
  lemma {:induction false} SubIsStripLineHeads(s: string)
    ensures SubNewlineDigits(s) == StripLineHeads(s, false)
    decreases |s|
  {
    if s == [] {
    } else if s[0] == '\n' && |s| > 1 && IsDigit(s[1]) {
      SubIsStripLineHeads(LStripDigits(s[1..]));
      StripLineHeadsAtStart(s[1..]);
    } else if s[0] == '\n' {
      SubIsStripLineHeads(s[1..]);
      StripLineHeadsAtStart(s[1..]);
    } else {
      SubIsStripLineHeads(s[1..]);
    }
  }

  /** `lstrip` of the digits in front of the text does the same at the start of the first line. */
  lemma {:induction false} LStripThenStripLineHeads(s: string)
    ensures LStripDigits(StripLineHeads(s, false)) == StripLineHeads(s, true)
    decreases |s|
  {
    if s != [] && IsDigit(s[0]) {
      LStripThenStripLineHeads(s[1..]);
    }
  }

  /** No line of the text starts with a digit: not the first, nor any after a line break. */
  predicate NoLineStartsWithDigit(s: string) {
    && (s != [] ==> !IsDigit(s[0]))
    && forall i :: 0 <= i < |s| - 1 && s[i] == '\n' ==> !IsDigit(s[i + 1])
  }

  /** The characters of `s` that are not digits, in order. */
  function NonDigits(s: string): string {
    if s == [] then [] else (if IsDigit(s[0]) then [] else [s[0]]) + NonDigits(s[1..])
  }

  /** `a` can be obtained from `b` by deleting characters. */
  predicate IsSubsequence(a: string, b: string)
    decreases |b|
  {
    if a == [] then true
    else if b == [] then false
    else if a[0] == b[0] then IsSubsequence(a[1..], b[1..])
    else IsSubsequence(a, b[1..])
  }

  /** What the per-line reading keeps: a subsequence, with every non-digit, and no line opening on a digit. */
  lemma {:induction false} StripLineHeadsProperties(s: string, atLineStart: bool)
    ensures IsSubsequence(StripLineHeads(s, atLineStart), s)
    ensures NonDigits(StripLineHeads(s, atLineStart)) == NonDigits(s)
    ensures var r := StripLineHeads(s, atLineStart);
            && (atLineStart && r != [] ==> !IsDigit(r[0]))
            && forall i :: 0 <= i < |r| - 1 && r[i] == '\n' ==> !IsDigit(r[i + 1])
    decreases |s|
  {
    if s == [] {
    } else if atLineStart && IsDigit(s[0]) {
      StripLineHeadsProperties(s[1..], true);
    } else {
      StripLineHeadsProperties(s[1..], s[0] == '\n');
      var rest := StripLineHeads(s[1..], s[0] == '\n');
      var r := [s[0]] + rest;
      assert r[1..] == rest;
      forall i | 0 <= i < |r| - 1 && r[i] == '\n' ensures !IsDigit(r[i + 1]) {
        if i > 0 {
          assert r[i] == rest[i - 1] && r[i + 1] == rest[i];
        }
      }
    }
  }

  /** A subsequence holds only characters of the original. */
  lemma {:induction false} SubsequenceChars(a: string, b: string)
    requires IsSubsequence(a, b)
    ensures forall c :: c in a ==> c in b
    decreases |b|
  {
    if a != [] && b != [] {
      if a[0] == b[0] {
        SubsequenceChars(a[1..], b[1..]);
        forall c | c in a ensures c in b {
          if c != a[0] { assert c in a[1..]; }
        }
      } else {
        SubsequenceChars(a, b[1..]);
      }
    }
  }

  /**
   * The cleaned description has no `~`, no line of it starts with a digit, and it is the
   * raw description with `~` made a line break and some digits deleted, every other
   * character kept in order.
   */
  lemma CleanDescriptionProperties(raw: string)
    ensures '~' !in CleanDescription(raw)
    ensures NoLineStartsWithDigit(CleanDescription(raw))
    ensures IsSubsequence(CleanDescription(raw), ReplaceTilde(raw))
    ensures NonDigits(CleanDescription(raw)) == NonDigits(ReplaceTilde(raw))
  {
    var t := ReplaceTilde(raw);
    StripLineHeadsProperties(t, true);
    SubsequenceChars(CleanDescription(raw), t);
    forall i | 0 <= i < |t| ensures t[i] != '~' {
      ReplaceTildeAt(raw, i);
    }
  }
}
