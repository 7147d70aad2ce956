/**
 * `parse_ibis` from IBIS_Parser/ibis_parser.py: one pass over the lines of an IBIS
 * file that keeps the last `C_comp` value and builds a table from pin name to the
 * pin's `L_pin` and `C_pin` columns of the `[Pin]` keyword.
 *
 * The method `ParseIbis` follows the source statement by statement. Its contract
 * ties the result to definitions that look at the whole file at once: the last
 * `C_comp` line (`LastCComp`), the section a line sits in (`InPinSection`, decided
 * by the nearest `[` header above it) and the last row naming a pin (`LastRowFor`).
 */
module IbisParser {
  import opened Wrappers
  import opened Strings

  /** The two raw columns kept for a pin: inductance (column 4) and capacitance (column 5). */
  datatype PinRecord = PinRecord(inductance: string, capacitance: string)

  /** What `parse_ibis` returns: the component capacitance token (or None) and the pin table. */
  datatype IbisData = IbisData(componentCapacitance: Option<string>, pins: map<string, PinRecord>)

  /** The IndexError raised by a pin row with fewer than six fields, with the row's index. */
  datatype ParseError = MalformedRow(line: nat)

  predicate IsCCompLine(line: string) { "C_comp" <= line }

  predicate IsPinHeader(line: string) { "[Pin]" <= line }

  /** Any keyword line; `[Pin]` included. */
  predicate IsHeader(line: string) { "[" <= line }

  predicate IsComment(line: string) { "|" <= line }

  /** The stripped line `i`, as the loop body sees it. */
  function Line(lines: seq<string>, i: nat): string
    requires i < |lines|
  {
    Strip(lines[i])
  }

  /** The whitespace-separated fields of stripped line `i`. */
  function Fields(lines: seq<string>, i: nat): seq<string>
    requires i < |lines|
  {
    Words(Line(lines, i))
  }

  /** `line.split()[-1]` on a `C_comp` line: its last field, the "max" column. */
  function LastField(line: string): string
    requires IsCCompLine(line)
  {
    var ws := Words(line);
    ws[|ws| - 1]
  }

  /** The capacitance token is the final field of its line: non-empty and free of whitespace. */
  lemma LastFieldIsWord(line: string)
    requires IsCCompLine(line)
    ensures Words(line) != [] && IsWord(LastField(line))
  {
    WordsAreWords(line);
  }

  /** The index of the last `C_comp` line among the first `n` lines, if any. */
  function LastCCompLine(lines: seq<string>, n: nat): (r: Option<nat>)
    requires n <= |lines|
    ensures r.None? ==> forall j :: 0 <= j < n ==> !IsCCompLine(Line(lines, j))
    ensures r.Some? ==> r.value < n && IsCCompLine(Line(lines, r.value))
                        && forall j :: r.value < j < n ==> !IsCCompLine(Line(lines, j))
  {
    if n == 0 then None
    else if IsCCompLine(Line(lines, n - 1)) then Some(n - 1)
    else LastCCompLine(lines, n - 1)
  }

  /** The component capacitance the first `n` lines determine: the last field of the last `C_comp` line. */
  function LastCComp(lines: seq<string>, n: nat): Option<string>
    requires n <= |lines|
  {
    match LastCCompLine(lines, n)
    case None => None
    case Some(i) => Some(LastField(Line(lines, i)))
  }

  /** The index of the last keyword line (`[`...) among the first `n` lines, if any. */
  function LastHeader(lines: seq<string>, n: nat): (r: Option<nat>)
    requires n <= |lines|
    ensures r.None? ==> forall j :: 0 <= j < n ==> !IsHeader(Line(lines, j))
    ensures r.Some? ==> r.value < n && IsHeader(Line(lines, r.value))
                        && forall j :: r.value < j < n ==> !IsHeader(Line(lines, j))
  {
    if n == 0 then None
    else if IsHeader(Line(lines, n - 1)) then Some(n - 1)
    else LastHeader(lines, n - 1)
  }

  /** Line `n` is inside a pin table: the nearest keyword above it is `[Pin]`. */
  predicate InPinSection(lines: seq<string>, n: nat)
    requires n <= |lines|
  {
    var h := LastHeader(lines, n);
    h.Some? && IsPinHeader(Line(lines, h.value))
  }

  /** Line `i` is a row of a pin table: inside the section, not blank, not a comment, not a keyword. */
  predicate IsPinRow(lines: seq<string>, i: nat)
    requires i < |lines|
  {
    var line := Line(lines, i);
    InPinSection(lines, i) && line != [] && !IsHeader(line) && !IsComment(line)
  }

  /** Field 0 of a pin row: the pin name. */
  function PinName(lines: seq<string>, i: nat): string
    requires i < |lines| && IsPinRow(lines, i)
  {
    Fields(lines, i)[0]
  }

  /** What a row contributes to the table, or None for a row too short to index. */
  function RowRecord(fields: seq<string>): Option<PinRecord> {
    if |fields| >= 6 then Some(PinRecord(fields[4], fields[5])) else None
  }

  /** Every pin row among the first `n` lines has the six fields the source indexes. */
  predicate RowsComplete(lines: seq<string>, n: nat)
    requires n <= |lines|
  {
    forall i :: 0 <= i < n && IsPinRow(lines, i) ==> |Fields(lines, i)| >= 6
  }

  /** The pin a line names: `Some(name)` for a pin row, `None` for any other line. */
  function RowKey(lines: seq<string>, j: nat): (k: Option<string>)
    requires j < |lines|
    ensures k.Some? <==> IsPinRow(lines, j)
    ensures k.Some? ==> k.value == PinName(lines, j)
  {
    if IsPinRow(lines, j) then Some(PinName(lines, j)) else None
  }

  /** The keys of the first `n` lines, in order. */
  function RowKeys(lines: seq<string>, n: nat): (ks: seq<Option<string>>)
    requires n <= |lines|
  {
    seq(n, j requires 0 <= j < n => RowKey(lines, j))
  }

  /** The last position of `keys` holding `Some(pin)`, if any. */
  function LastIndexOf(keys: seq<Option<string>>, pin: string): (r: Option<nat>)
    ensures r.Some? ==> r.value < |keys| && keys[r.value] == Some(pin)
  {
    if keys == [] then None
    else if keys[|keys| - 1] == Some(pin) then Some(|keys| - 1)
    else LastIndexOf(keys[..|keys| - 1], pin)
  }

  lemma {:induction false} LastIndexOfNone(keys: seq<Option<string>>, pin: string)
    requires LastIndexOf(keys, pin).None?
    ensures forall j :: 0 <= j < |keys| ==> keys[j] != Some(pin)
  {
    if keys != [] {
      LastIndexOfNone(keys[..|keys| - 1], pin);
    }
  }

  lemma {:induction false} LastIndexOfIsLast(keys: seq<Option<string>>, pin: string, r: nat)
    requires LastIndexOf(keys, pin) == Some(r)
    ensures forall j :: r < j < |keys| ==> keys[j] != Some(pin)
  {
    if r < |keys| - 1 {
      LastIndexOfIsLast(keys[..|keys| - 1], pin, r);
    }
  }

  /** The last pin row among the first `n` lines whose name is `pin`, if any. */
  function LastRowFor(lines: seq<string>, n: nat, pin: string): (r: Option<nat>)
    requires n <= |lines|
    ensures r.Some? ==> r.value < n && RowKey(lines, r.value) == Some(pin)
  {
    LastIndexOf(RowKeys(lines, n), pin)
  }

  /** Appending line `n` to the prefix: its own pin row wins, any other pin keeps its last row. */
  lemma LastRowForStep(lines: seq<string>, n: nat, pin: string)
    requires n < |lines|
    ensures LastRowFor(lines, n + 1, pin) ==
              if RowKey(lines, n) == Some(pin) then Some(n) else LastRowFor(lines, n, pin)
  {
    assert RowKeys(lines, n + 1)[..n] == RowKeys(lines, n);
  }

  /** When `LastRowFor` finds nothing, no line before `n` is a pin row naming `pin`. */
  lemma LastRowForNone(lines: seq<string>, n: nat, pin: string)
    requires n <= |lines| && LastRowFor(lines, n, pin).None?
    ensures forall j :: 0 <= j < n ==> RowKey(lines, j) != Some(pin)
  {
    LastIndexOfNone(RowKeys(lines, n), pin);
    forall j | 0 <= j < n
      ensures RowKey(lines, j) != Some(pin)
    {
      assert RowKeys(lines, n)[j] == RowKey(lines, j);
    }
  }

  /** The row `LastRowFor` finds is the last one naming `pin`: no later line before `n` names it. */
  lemma LastRowForIsLast(lines: seq<string>, n: nat, pin: string, r: nat)
    requires n <= |lines| && LastRowFor(lines, n, pin) == Some(r)
    ensures forall j :: r < j < n ==> RowKey(lines, j) != Some(pin)
  {
    LastIndexOfIsLast(RowKeys(lines, n), pin, r);
    forall j | r < j < n
      ensures RowKey(lines, j) != Some(pin)
    {
      assert RowKeys(lines, n)[j] == RowKey(lines, j);
    }
  }

  /** A line above the first `[Pin]` keyword is never a pin row. */
  lemma NoRowBeforePinHeader(lines: seq<string>, i: nat)
    requires i < |lines|
    requires forall j :: 0 <= j < i ==> !IsPinHeader(Line(lines, j))
    ensures !IsPinRow(lines, i)
  {
  }

  /** After a keyword other than `[Pin]`, no line is a pin row until the next `[Pin]`. */
  lemma NoRowAfterOtherHeader(lines: seq<string>, h: nat, i: nat)
    requires h < i < |lines|
    requires IsHeader(Line(lines, h)) && !IsPinHeader(Line(lines, h))
    requires forall j :: h < j < i ==> !IsPinHeader(Line(lines, j))
    ensures !IsPinRow(lines, i)
  {
  }

  /** A `C_comp` line inside a pin table is both the new capacitance and a pin row named `C_comp`. */
  lemma CCompInPinSection(lines: seq<string>, i: nat)
    requires i < |lines| && InPinSection(lines, i) && IsCCompLine(Line(lines, i))
    ensures LastCComp(lines, i + 1) == Some(LastField(Line(lines, i)))
    ensures IsPinRow(lines, i) && "C_comp" <= PinName(lines, i)
  {
  }

  /** `pins` is the table the first `n` lines determine: one entry per named pin, from its last row. */
  ghost predicate TableOf(lines: seq<string>, n: nat, pins: map<string, PinRecord>)
    requires n <= |lines|
  {
    && (forall pin :: pin in pins <==> LastRowFor(lines, n, pin).Some?)
    && (forall pin :: pin in pins ==> Some(pins[pin]) == RowRecord(Fields(lines, LastRowFor(lines, n, pin).value)))
  }

  /** A complete pin row adds or overwrites its own pin's entry and leaves every other entry alone. */
  lemma TableOfRow(lines: seq<string>, n: nat, pins: map<string, PinRecord>)
    requires n < |lines| && TableOf(lines, n, pins)
    requires IsPinRow(lines, n) && |Fields(lines, n)| >= 6
    ensures TableOf(lines, n + 1, pins[PinName(lines, n) := PinRecord(Fields(lines, n)[4], Fields(lines, n)[5])])
  {
    var name := PinName(lines, n);
    var pins' := pins[name := PinRecord(Fields(lines, n)[4], Fields(lines, n)[5])];
    forall pin
      ensures pin in pins' <==> LastRowFor(lines, n + 1, pin).Some?
      ensures pin in pins' ==> Some(pins'[pin]) == RowRecord(Fields(lines, LastRowFor(lines, n + 1, pin).value))
    {
      LastRowForStep(lines, n, pin);
    }
  }

  /** A line that is not a pin row leaves the table as it is. */
  lemma TableOfOther(lines: seq<string>, n: nat, pins: map<string, PinRecord>)
    requires n < |lines| && TableOf(lines, n, pins)
    requires !IsPinRow(lines, n)
    ensures TableOf(lines, n + 1, pins)
  {
    forall pin
      ensures LastRowFor(lines, n + 1, pin) == LastRowFor(lines, n, pin)
    {
      LastRowForStep(lines, n, pin);
    }
  }

  /** The section flag after line `n`: set by `[Pin]`, cleared by any other keyword, kept otherwise. */
  lemma InPinSectionStep(lines: seq<string>, n: nat)
    requires n < |lines|
    ensures InPinSection(lines, n + 1) ==
              if IsPinHeader(Line(lines, n)) then true
              else if IsHeader(Line(lines, n)) then false
              else InPinSection(lines, n)
  {
  }

  /** A pin row that has all six fields keeps every pin row seen so far complete. */
  lemma RowsCompleteStep(lines: seq<string>, n: nat)
    requires n < |lines| && RowsComplete(lines, n)
    requires IsPinRow(lines, n) ==> |Fields(lines, n)| >= 6
    ensures RowsComplete(lines, n + 1)
  {
  }

  /**
   * `parse_ibis` after the file has been read into `lines`.
   * It fails exactly when some pin row is short, at the first such row; otherwise the
   * capacitance is that of the last `C_comp` line, a pin is in the table exactly when
   * some pin row names it, and its record comes from the last row naming it.
   */
  method ParseIbis(lines: seq<string>) returns (r: Result<IbisData, ParseError>)
    ensures r.Success? <==> RowsComplete(lines, |lines|)
    ensures r.Failure? ==> var e := r.error.line;
                           e < |lines| && IsPinRow(lines, e) && |Fields(lines, e)| < 6 && RowsComplete(lines, e)
    ensures r.Success? ==> r.value.componentCapacitance == LastCComp(lines, |lines|)
    ensures r.Success? ==> forall pin :: pin in r.value.pins <==> LastRowFor(lines, |lines|, pin).Some?
    ensures r.Success? ==> forall pin :: pin in r.value.pins ==>
                             Some(r.value.pins[pin]) == RowRecord(Fields(lines, LastRowFor(lines, |lines|, pin).value))
  {
    var componentCapacitance: Option<string> := None;
    var parsingPins := false;
    var pinData: map<string, PinRecord> := map[];
    for i := 0 to |lines|
      invariant parsingPins == InPinSection(lines, i)
      invariant componentCapacitance == LastCComp(lines, i)
      invariant RowsComplete(lines, i)
      invariant TableOf(lines, i, pinData)
    {
      var line := Strip(lines[i]);
      assert line == Line(lines, i);
      InPinSectionStep(lines, i);
      if "C_comp" <= line {
        componentCapacitance := Some(LastField(line));
      }
      assert componentCapacitance == LastCComp(lines, i + 1);
      if "[Pin]" <= line {
        parsingPins := true;
        assert !IsPinRow(lines, i);
        TableOfOther(lines, i, pinData);
        RowsCompleteStep(lines, i);
        continue;
      }
      if "[" <= line {
        parsingPins := false;
      }
      if parsingPins && !("|" <= line) && line != [] {
        assert IsPinRow(lines, i);
        var parts := Words(line);
        if |parts| < 6 {
          return Failure(MalformedRow(i));
        }
        TableOfRow(lines, i, pinData);
        RowsCompleteStep(lines, i);
        pinData := pinData[parts[0] := PinRecord(parts[4], parts[5])];
      } else {
        assert !IsPinRow(lines, i);
        TableOfOther(lines, i, pinData);
        RowsCompleteStep(lines, i);
      }
    }
    return Success(IbisData(componentCapacitance, pinData));
  }
}
