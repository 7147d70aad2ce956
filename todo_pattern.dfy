/**
 * The fixed pattern `\|Text=(TODO[^~|]*)~?([^|]*)\|` of Altium_TODO/Altium_TODO.py and
 * `findall` over it, written out as a scanner over the document text.
 *
 * At a position where `|Text=TODO` starts, the greedy first group runs up to the first
 * `~` or `|`. If that is `|`, the match ends there with an empty description. If it is
 * `~`, the description runs up to the next `|`, which closes the match. When no `|`
 * follows at all, no way of backtracking can close the match either, so there is none.
 */
module TodoPattern {
  import opened Wrappers

  /** One match: where it starts, one past its closing `|`, and its two groups. */
  datatype Match = Match(start: nat, end: nat, todo: string, description: string)

  const Opening: string := "|Text=TODO"

  /** `|Text=TODO` starts at position `p` of `s`, read character by character. */
  predicate OpensAt(s: string, p: nat) {
    && p + 10 <= |s|
    && s[p] == '|' && s[p + 1] == 'T' && s[p + 2] == 'e' && s[p + 3] == 'x' && s[p + 4] == 't'
    && s[p + 5] == '=' && s[p + 6] == 'T' && s[p + 7] == 'O' && s[p + 8] == 'D' && s[p + 9] == 'O'
  }

  /** Where `[^~|]*` stops from `i`: the first `~` or `|` at or after `i`, or `|s|` if there is none. */
  function TodoTextEnd(s: string, i: nat): (j: nat)
    requires i <= |s|
    ensures i <= j <= |s|
    ensures j == |s| || s[j] == '~' || s[j] == '|'
    decreases |s| - i
  {
    if i == |s| || s[i] == '~' || s[i] == '|' then i else TodoTextEnd(s, i + 1)
  }

  /** Where `[^|]*` stops from `i`: the first `|` at or after `i`, or `|s|` if there is none. */
  function DescriptionEnd(s: string, i: nat): (j: nat)
    requires i <= |s|
    ensures i <= j <= |s|
    ensures j == |s| || s[j] == '|'
    decreases |s| - i
  {
    if i == |s| || s[i] == '|' then i else DescriptionEnd(s, i + 1)
  }

  /** `TodoTextEnd` steps over no `~` and no `|`. */
  lemma {:induction false} TodoTextEndSkips(s: string, i: nat)
    requires i <= |s|
    ensures forall k :: i <= k < TodoTextEnd(s, i) ==> s[k] != '~' && s[k] != '|'
    decreases |s| - i
  {
    if i < |s| && s[i] != '~' && s[i] != '|' {
      TodoTextEndSkips(s, i + 1);
    }
  }

  /** `DescriptionEnd` steps over no `|`. */
  lemma {:induction false} DescriptionEndSkips(s: string, i: nat)
    requires i <= |s|
    ensures forall k :: i <= k < DescriptionEnd(s, i) ==> s[k] != '|'
    decreases |s| - i
  {
    if i < |s| && s[i] != '|' {
      DescriptionEndSkips(s, i + 1);
    }
  }

  /** `|` occurs somewhere in `s[i..]`. */
  predicate BarFrom(s: string, i: nat) {
    exists k :: i <= k < |s| && s[k] == '|'
  }

  /** The text of the first group: `TODO` followed by neither `~` nor `|`. */
  predicate IsTodoText(t: string) {
    "TODO" <= t && forall k :: 0 <= k < |t| ==> t[k] != '~' && t[k] != '|'
  }

  /** The text of the second group: no `|`. */
  predicate IsDescriptionText(d: string) {
    forall k :: 0 <= k < |d| ==> d[k] != '|'
  }

  /** The pattern tried at position `p` of `s`, as the regular-expression engine resolves it. */
  function MatchAt(s: string, p: nat): (r: Option<Match>)
    requires p <= |s|
    ensures r.Some? ==> r.value.start == p && p < r.value.end <= |s|
  {
    if !OpensAt(s, p) then None
    else
      var j1 := TodoTextEnd(s, p + 10);
      if j1 == |s| then None
      else if s[j1] == '|' then Some(Match(p, j1 + 1, s[p + 6..j1], ""))
      else
        var j2 := DescriptionEnd(s, j1 + 1);
        if j2 == |s| then None
        else Some(Match(p, j2 + 1, s[p + 6..j1], s[j1 + 1..j2]))
  }

  /** A match starts at `p` exactly when `|Text=TODO` starts there and some `|` follows it. */
  lemma MatchAtExactly(s: string, p: nat)
    requires p <= |s|
    ensures MatchAt(s, p).Some? <==> Opening <= s[p..] && BarFrom(s, p + 10)
  {
    if Opening <= s[p..] {
      var j1 := TodoTextEnd(s, p + 10);
      TodoTextEndSkips(s, p + 10);
      if j1 < |s| && s[j1] == '~' {
        var j2 := DescriptionEnd(s, j1 + 1);
        DescriptionEndSkips(s, j1 + 1);
        if j2 == |s| {
          assert forall k :: p + 10 <= k < |s| ==> s[k] != '|';
        }
      }
    }
  }

  /** The two groups of a match are what the pattern lets them be. */
  lemma MatchAtGroups(s: string, p: nat)
    requires p <= |s| && MatchAt(s, p).Some?
    ensures IsTodoText(MatchAt(s, p).value.todo) && IsDescriptionText(MatchAt(s, p).value.description)
  {
    var j1 := TodoTextEnd(s, p + 10);
    TodoTextEndSkips(s, p + 10);
    if s[j1] == '~' {
      DescriptionEndSkips(s, j1 + 1);
    }
  }

  /** `s[p..j + 1]` read as `|Text=`, the text up to `j`, and the `|` at `j`. */
  lemma SpelledWithBar(s: string, p: nat, j: nat)
    requires p + 6 <= j < |s| && s[p..p + 6] == "|Text=" && s[j] == '|'
    ensures s[p..j + 1] == "|Text=" + s[p + 6..j] + "|"
  {
    assert s[p..j + 1] == s[p..p + 6] + s[p + 6..j] + [s[j]];
  }

  /** `s[p..j2 + 1]` read as `|Text=`, the text up to the `~` at `j1`, the text up to `j2`, and the `|` at `j2`. */
  lemma SpelledWithTilde(s: string, p: nat, j1: nat, j2: nat)
    requires p + 6 <= j1 < j2 < |s| && s[p..p + 6] == "|Text=" && s[j1] == '~' && s[j2] == '|'
    ensures s[p..j2 + 1] == "|Text=" + s[p + 6..j1] + "~" + s[j1 + 1..j2] + "|"
  {
    assert s[p..j2 + 1] == s[p..j1] + s[j1..j2 + 1];
    assert s[p..j1] == s[p..p + 6] + s[p + 6..j1];
    assert s[j1..j2 + 1] == [s[j1]] + s[j1 + 1..j2] + [s[j2]];
  }

  /** The text a match consumes is `|Text=`, the TODO, then either `|` or `~`, the description and `|`. */
  lemma MatchAtSpells(s: string, p: nat)
    requires p <= |s| && MatchAt(s, p).Some?
    ensures var m := MatchAt(s, p).value;
            || (s[p..m.end] == "|Text=" + m.todo + "|" && m.description == "")
            || s[p..m.end] == "|Text=" + m.todo + "~" + m.description + "|"
  {
    var j1 := TodoTextEnd(s, p + 10);
    assert s[p..p + 6] == Opening[..6];
    if s[j1] == '|' {
      SpelledWithBar(s, p, j1);
    } else {
      SpelledWithTilde(s, p, j1, DescriptionEnd(s, j1 + 1));
    }
  }

  /** A table of attempts: entry `q`, when present, is a match that starts at `q` and ends inside the table. */
  predicate WellPlaced(a: seq<Option<Match>>) {
    forall q :: 0 <= q < |a| && a[q].Some? ==> a[q].value.start == q < a[q].value.end <= |a|
  }

  /** The pattern tried at every position of `s`. */
  function Attempts(s: string): (a: seq<Option<Match>>)
    ensures |a| == |s| && WellPlaced(a)
  {
    seq(|s|, p requires 0 <= p < |s| => MatchAt(s, p))
  }

  /**
   * `findall` from position `from`: take the attempt at each position, and after a match
   * carry on just past its closing `|`.
   */
  function Scan(a: seq<Option<Match>>, from: nat): (ms: seq<Match>)
    requires WellPlaced(a) && from <= |a|
    decreases |a| - from
  {
    if from == |a| then []
    else
      match a[from]
      case Some(m) => [m] + Scan(a, m.end)
      case None => Scan(a, from + 1)
  }

  /** Every reported match is the attempt at its own start, at or after `from`. */
  lemma {:induction false} ScanSound(a: seq<Option<Match>>, from: nat)
    requires WellPlaced(a) && from <= |a|
    ensures forall i :: 0 <= i < |Scan(a, from)| ==>
              from <= Scan(a, from)[i].start < |a| && a[Scan(a, from)[i].start] == Some(Scan(a, from)[i])
    decreases |a| - from
  {
    if from < |a| {
      match a[from]
      case Some(m) =>
        ScanSound(a, m.end);
      case None =>
        ScanSound(a, from + 1);
    }
  }

  /** Reported matches do not overlap and come left to right. */
  lemma {:induction false} ScanOrdered(a: seq<Option<Match>>, from: nat)
    requires WellPlaced(a) && from <= |a|
    ensures forall i, j :: 0 <= i < j < |Scan(a, from)| ==> Scan(a, from)[i].end <= Scan(a, from)[j].start
    decreases |a| - from
  {
    if from < |a| {
      match a[from]
      case Some(m) =>
        ScanSound(a, m.end);
        ScanOrdered(a, m.end);
      case None =>
        ScanOrdered(a, from + 1);
    }
  }

  /** The reported match that covers position `p`, where an attempt succeeds. */
  lemma {:induction false} ScanCovering(a: seq<Option<Match>>, from: nat, p: nat) returns (i: nat)
    requires WellPlaced(a) && from <= p < |a| && a[p].Some?
    ensures i < |Scan(a, from)| && Scan(a, from)[i].start <= p < Scan(a, from)[i].end
    decreases |a| - from
  {
    match a[from]
    case Some(m) =>
      if p < m.end {
        i := 0;
      } else {
        var k := ScanCovering(a, m.end, p);
        i := k + 1;
      }
    case None =>
      i := ScanCovering(a, from + 1, p);
  }

  /** `findall` over the whole text: one (TODO, description) pair per match, left to right. */
  function FindAll(s: string): seq<Match> {
    Scan(Attempts(s), 0)
  }

  /** Every match `findall` reports is what the pattern yields at its start. */
  lemma FindAllSound(s: string)
    ensures forall i :: 0 <= i < |FindAll(s)| ==>
              FindAll(s)[i].start < |s| && MatchAt(s, FindAll(s)[i].start) == Some(FindAll(s)[i])
  {
    ScanSound(Attempts(s), 0);
  }

  /** The matches `findall` reports do not overlap and come in text order. */
  lemma FindAllOrdered(s: string)
    ensures forall i, j :: 0 <= i < j < |FindAll(s)| ==> FindAll(s)[i].end <= FindAll(s)[j].start
  {
    ScanOrdered(Attempts(s), 0);
  }

  /**
   * Nothing is skipped: every position where the pattern would match is the start of a
   * reported match or lies inside one.
   */
  lemma FindAllComplete(s: string, p: nat)
    requires p < |s| && MatchAt(s, p).Some?
    ensures exists i :: 0 <= i < |FindAll(s)| && FindAll(s)[i].start <= p < FindAll(s)[i].end
  {
    var a := Attempts(s);
    assert a[p] == MatchAt(s, p);
    var i := ScanCovering(a, 0, p);
    assert FindAll(s)[i] == Scan(a, 0)[i];
  }
}
