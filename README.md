# IBIS parasitics extractor and Altium TODO extractor, modelled in Dafny

This project models the text-processing core of two small Python scripts and proves
properties of the model.

- `IBIS_Parser/ibis_parser.py`
  - `parse_ibis` makes one pass over the lines of an IBIS file. It keeps the last
    `C_comp` value and builds a table from pin name to the pin's `L_pin` and `C_pin`
    columns of the `[Pin]` keyword table.
  - `format_engineering_notation` scales a number by powers of 1000 into engineering
    notation with an SI prefix between pico and tera.
- `Altium_TODO/Altium_TODO.py`
  - The fixed pattern `\|Text=(TODO[^~|]*)~?([^|]*)\|`, applied with `findall` to the
    text of a schematic document.
  - The colour chosen for a description.
  - The clean-up of a description.
  - The `.SchDoc` file filter.
  - The loops that collect the entries of one document and of a directory walk.

Files:

- `wrappers.dfy`: `Option` and `Result`.
- `strings.dfy`: the few pieces of Python's `str` the scripts use: `isspace`, `strip`,
  `split()` and `endswith`.
- `ibis_parser.dfy`: `ParseIbis` is an imperative method that follows `parse_ibis`
  statement by statement. Its contract ties the result to definitions that look at the
  whole file at once:
  - the last `C_comp` line;
  - the section a line sits in, decided by the nearest `[` keyword above it;
  - the last pin row naming each pin.
- `eng_notation.dfy`: the two scaling loops as the method `Scale`, proved against the
  predicate `IsEngNotation`. The predicate is shown to have at most one solution, so the
  worked examples follow from it. Numbers are `real`, and `Scaled(m, e)` is
  m·10^e written with linear steps only.
- `todo_pattern.dfy`: the pattern tried at one position (`MatchAt`), and `findall` as a
  left-to-right scan over the attempts (`FindAll`).
- `todo_text.dfy`: the colour choice and the clean-up. The clean-up is proved equal to
  a character-by-character reading that drops the digits opening each line.
- `altium_todo.dfy`: `find_todos_in_schdoc` and `search_todos_in_directory` as loops,
  each proved equal to a function of its input.

## Model

| member | source | states |
|---|---|---|
| `IbisParser.ParseIbis` | IBIS_Parser/ibis_parser.py:12-42 | The parse succeeds exactly when every pin row has at least six fields. Otherwise it fails at the first short row (the IndexError of `parts[4]`/`parts[5]`). On success the capacitance is the last field of the last `C_comp` line, or None if there is no such line. A pin is in the table exactly when some pin row names it, and its inductance and capacitance are fields 4 and 5 of the last row naming it. |
| `IbisParser.LastCCompLine` | IBIS_Parser/ibis_parser.py:15-20 | Finds the last stripped line starting with `C_comp`: no later line starts with `C_comp`, and None means that no line does. |
| `IbisParser.LastField` | IBIS_Parser/ibis_parser.py:19-20 | Definition of `line.split()[-1]`. It has no contract of its own; `IbisParser.LastFieldIsWord` and `IbisParser.ParseIbis` characterise it. |
| `IbisParser.LastFieldIsWord` | IBIS_Parser/ibis_parser.py:19-20 | A `C_comp` line has at least one field, so `[-1]` exists, and the capacitance taken is a non-empty, whitespace-free field. |
| `IbisParser.LastHeader` | IBIS_Parser/ibis_parser.py:22-29 | Finds the nearest `[` keyword line above a position: no line in between starts with `[`, and None means that none does. |
| `IbisParser.InPinSectionStep` | IBIS_Parser/ibis_parser.py:22-29 | The section flag after a line: `[Pin]` sets it, any other `[` line clears it, and every other line leaves it as it was. |
| `IbisParser.NoRowBeforePinHeader` | IBIS_Parser/ibis_parser.py:13-32 | A line with no `[Pin]` keyword above it is never a pin row. |
| `IbisParser.NoRowAfterOtherHeader` | IBIS_Parser/ibis_parser.py:27-32 | After a keyword other than `[Pin]`, no line is a pin row until the next `[Pin]`. |
| `IbisParser.CCompInPinSection` | IBIS_Parser/ibis_parser.py:19-34 | A non-keyword `C_comp` line inside a pin section sets the capacitance and is also a pin row, whose name starts with `C_comp`. |
| `IbisParser.LastIndexOf` | IBIS_Parser/ibis_parser.py:37-40 | The position found holds the key looked for. |
| `IbisParser.LastIndexOfNone` | IBIS_Parser/ibis_parser.py:37-40 | No position found means that no position holds the key. |
| `IbisParser.LastIndexOfIsLast` | IBIS_Parser/ibis_parser.py:37-40 | No later position holds the key. |
| `IbisParser.LastRowFor` | IBIS_Parser/ibis_parser.py:32-40 | The row found for a pin is a pin row whose field 0 is that pin. |
| `IbisParser.LastRowForNone` | IBIS_Parser/ibis_parser.py:32-40 | A pin with no row found is named by no pin row: entries come only from pin rows. |
| `IbisParser.LastRowForIsLast` | IBIS_Parser/ibis_parser.py:37-40 | The last write wins: no later pin row names the same pin. |
| `IbisParser.LastRowForStep` | IBIS_Parser/ibis_parser.py:37-40 | One more line: a pin row takes over its own pin's entry, and every other pin keeps its entry. |
| `IbisParser.TableOfRow` | IBIS_Parser/ibis_parser.py:32-40 | Storing a complete row under its field 0 keeps the table equal to the table the lines read so far determine. |
| `IbisParser.TableOfOther` | IBIS_Parser/ibis_parser.py:23-32 | A line that is not a pin row leaves the table as it is. |
| `IbisParser.RowsCompleteStep` | IBIS_Parser/ibis_parser.py:32-36 | The "every pin row so far has six fields" property extends by one line. |
| `Strings.LStrip` | IBIS_Parser/ibis_parser.py:16 | `lstrip()` drops only whitespace, from the front, and leaves no whitespace in front. |
| `Strings.RStrip` | IBIS_Parser/ibis_parser.py:16 | `rstrip()` returns a prefix of its input: every dropped character is whitespace and none is left at the end. |
| `Strings.Strip` | IBIS_Parser/ibis_parser.py:16 | `strip()` leaves no whitespace at either end and never lengthens its input. |
| `Strings.LStripIsSuffix` | IBIS_Parser/ibis_parser.py:16 | What `lstrip()` leaves is a suffix of its input. |
| `Strings.StripSpan` | IBIS_Parser/ibis_parser.py:16 | `strip()` keeps one contiguous piece of its input, and everything it drops before or after that piece is whitespace. |
| `Strings.EndsWith` | Altium_TODO/Altium_TODO.py:58 | Definition of `endswith`: the last characters equal the suffix. It has no contract of its own; `AltiumTodo.AllTodosWellFormed` states the filter it implements. |
| `Strings.TakeWord` | IBIS_Parser/ibis_parser.py:33 | A field is a whitespace-free prefix of the text that ends at whitespace or at the end of the text. |
| `Strings.Words` | IBIS_Parser/ibis_parser.py:33 | The first field of a line that does not start with whitespace is its longest whitespace-free prefix. Together with `WordsCons`, `WordsAfterSpaces` and `WordsOfSpaces` this fixes every field. |
| `Strings.WordsAreWords` | IBIS_Parser/ibis_parser.py:33 | Every field of `split()` is non-empty and holds no whitespace. |
| `Strings.TakeWordOfWord` | IBIS_Parser/ibis_parser.py:33 | A whitespace-free word followed by whitespace or the end of the text is taken whole. |
| `Strings.WordsCons` | IBIS_Parser/ibis_parser.py:33 | `split()` of a word followed by whitespace is that word followed by the fields of the rest. |
| `Strings.WordsAfterSpaces` | IBIS_Parser/ibis_parser.py:33 | Leading whitespace adds no field. |
| `Strings.WordsOfSpaces` | IBIS_Parser/ibis_parser.py:33 | A text of whitespace only has no fields. |
| `EngNotation.Scale` | IBIS_Parser/ibis_parser.py:47-55 | The two loops end in engineering notation: the exponent is a multiple of 3 in [-12, 12], mantissa·10^exponent is the input, \|mantissa\| < 1000 unless the exponent is 12, and \|mantissa\| >= 1 unless it is -12. |
| `EngNotation.FormatEngineeringNotation` | IBIS_Parser/ibis_parser.py:44-57 | It fails exactly when `float()` rejects the text. Otherwise it returns the engineering notation of the number and the prefix table's entry for the exponent. |
| `EngNotation.Prefix` | IBIS_Parser/ibis_parser.py:48 | The prefix is at most one character, and it is empty exactly for exponent 0. |
| `EngNotation.PrefixInjective` | IBIS_Parser/ibis_parser.py:48 | No two exponents of the table share a prefix. |
| `EngNotation.KiloDown` | IBIS_Parser/ibis_parser.py:50-52 | A step of the first loop (divide by 1000, add 3) keeps mantissa·10^exponent. |
| `EngNotation.KiloUp` | IBIS_Parser/ibis_parser.py:53-55 | A step of the second loop (multiply by 1000, subtract 3) keeps mantissa·10^exponent. |
| `EngNotation.DivideByKilo` | IBIS_Parser/ibis_parser.py:51 | Dividing by 1000 is scaling down three decimal places. |
| `EngNotation.MultiplyByKilo` | IBIS_Parser/ibis_parser.py:54 | Multiplying by 1000 is scaling up three decimal places. |
| `EngNotation.ScaledTwice` | IBIS_Parser/ibis_parser.py:50-55 | Scaling by 10^a and then by 10^b is scaling by 10^(a+b). |
| `EngNotation.ScaledAbs` | IBIS_Parser/ibis_parser.py:50-55 | Scaling keeps the sign and keeps zero as zero. |
| `EngNotation.LowerExponentLargerMantissa` | IBIS_Parser/ibis_parser.py:50-55 | Writing the same number with an exponent lower by 3 or more needs a mantissa at least 1000 times larger. |
| `EngNotation.EngNotationUnique` | IBIS_Parser/ibis_parser.py:50-55 | A number has at most one engineering notation, so the exponent and mantissa the loops reach are determined by the number alone. |
| `EngNotation.KiloExample` | IBIS_Parser/ibis_parser.py:47-57 | 1000 becomes mantissa 1 with prefix `k`. |
| `EngNotation.MicroExample` | IBIS_Parser/ibis_parser.py:47-57 | 0.000001 becomes mantissa 1 with prefix `u`. |
| `EngNotation.UnitExample` | IBIS_Parser/ibis_parser.py:47-57 | 999 stays 999 with the empty prefix. |
| `EngNotation.ClampedAtTeraExample` | IBIS_Parser/ibis_parser.py:47-57 | 2e15 stops at tera: mantissa 2000 with prefix `T`. |
| `EngNotation.ZeroExample` | IBIS_Parser/ibis_parser.py:47-57 | 0 runs down to pico: mantissa 0 with prefix `p`. |
| `TodoPattern.TodoTextEnd` | Altium_TODO/Altium_TODO.py:25 | The TODO group's character class stops at the first `~` or `\|`, or at the end of the text. |
| `TodoPattern.TodoTextEndSkips` | Altium_TODO/Altium_TODO.py:25 | The TODO group's character class consumes no `~` and no `\|`. |
| `TodoPattern.DescriptionEnd` | Altium_TODO/Altium_TODO.py:25 | The description group's character class stops at the first `\|`, or at the end of the text. |
| `TodoPattern.DescriptionEndSkips` | Altium_TODO/Altium_TODO.py:25 | The description group's character class consumes no `\|`. |
| `TodoPattern.MatchAt` | Altium_TODO/Altium_TODO.py:25 | A match found at a position starts there and ends after it, inside the text. |
| `TodoPattern.MatchAtExactly` | Altium_TODO/Altium_TODO.py:25 | The pattern matches at a position exactly when `\|Text=TODO` starts there and some `\|` follows it. |
| `TodoPattern.MatchAtGroups` | Altium_TODO/Altium_TODO.py:25 | The TODO group starts with `TODO` and holds no `~` or `\|`. The description group holds no `\|`. |
| `TodoPattern.MatchAtSpells` | Altium_TODO/Altium_TODO.py:25 | The consumed text is either `\|Text=` + TODO + `\|` with an empty description, or `\|Text=` + TODO + `~` + description + `\|`. |
| `TodoPattern.SpelledWithBar` | Altium_TODO/Altium_TODO.py:25 | The text up to a closing `\|` reads `\|Text=`, the group, `\|`. |
| `TodoPattern.SpelledWithTilde` | Altium_TODO/Altium_TODO.py:25 | The text up to a closing `\|` after a `~` reads `\|Text=`, the first group, `~`, the second group, `\|`. |
| `TodoPattern.Attempts` | Altium_TODO/Altium_TODO.py:31 | Every attempt that succeeds starts at its own position and ends inside the text. |
| `TodoPattern.Scan` | Altium_TODO/Altium_TODO.py:31 | Definition of the left-to-right scan. It has no contract of its own; `ScanSound`, `ScanOrdered` and `ScanCovering` characterise it. |
| `TodoPattern.ScanSound` | Altium_TODO/Altium_TODO.py:31 | Every reported match is the successful attempt at its own start. |
| `TodoPattern.ScanOrdered` | Altium_TODO/Altium_TODO.py:31 | Reported matches do not overlap and come left to right. |
| `TodoPattern.ScanCovering` | Altium_TODO/Altium_TODO.py:31 | Each position where an attempt succeeds lies inside a reported match. |
| `TodoPattern.FindAll` | Altium_TODO/Altium_TODO.py:31 | Definition of `findall` over a whole text. It has no contract of its own; `FindAllSound`, `FindAllOrdered` and `FindAllComplete` characterise it. |
| `TodoPattern.FindAllSound` | Altium_TODO/Altium_TODO.py:31 | Every match `findall` reports is what the pattern yields at its start. |
| `TodoPattern.FindAllOrdered` | Altium_TODO/Altium_TODO.py:31 | `findall` reports non-overlapping matches in text order. |
| `TodoPattern.FindAllComplete` | Altium_TODO/Altium_TODO.py:31 | Nothing is skipped: every position where the pattern matches is inside a reported match. |
| `TodoText.DescriptionColor` | Altium_TODO/Altium_TODO.py:36 | Cyan exactly when the TODO text contains `_`; green otherwise. |
| `TodoText.ReplaceTilde` | Altium_TODO/Altium_TODO.py:38 | `replace("~", "\n")` keeps the length. |
| `TodoText.ReplaceTildeAt` | Altium_TODO/Altium_TODO.py:38 | Each `~` becomes a line break, and every other character stays in place. |
| `TodoText.LStripDigits` | Altium_TODO/Altium_TODO.py:38 | `lstrip('0123456789')` drops only digits, from the front, and leaves no digit in front. |
| `TodoText.LStripDigitsIsSuffix` | Altium_TODO/Altium_TODO.py:38 | What `lstrip('0123456789')` leaves is a suffix of its input. |
| `TodoText.SubNewlineDigits` | Altium_TODO/Altium_TODO.py:38 | Definition of `re.sub(r'\n\d+', '\n', ...)`. It has no contract of its own; `TodoText.SubIsStripLineHeads` characterises it. |
| `TodoText.CleanDescription` | Altium_TODO/Altium_TODO.py:38 | The clean-up equals the line-by-line reading: after `~` becomes a line break, the digits that open each line are dropped, and nothing else is. |
| `TodoText.StripLineHeadsAtStart` | Altium_TODO/Altium_TODO.py:38 | At a line start, dropping the leading digits first changes nothing. |
| `TodoText.SubIsStripLineHeads` | Altium_TODO/Altium_TODO.py:38 | `re.sub(r'\n\d+', '\n', ...)` drops exactly the digits that follow each line break. |
| `TodoText.LStripThenStripLineHeads` | Altium_TODO/Altium_TODO.py:38 | The final `lstrip` of digits does the same for the first line. |
| `TodoText.StripLineHeadsProperties` | Altium_TODO/Altium_TODO.py:38 | The line-by-line reading keeps a subsequence of its input with every non-digit, and no line of its result opens with a digit. |
| `TodoText.SubsequenceChars` | Altium_TODO/Altium_TODO.py:38 | A subsequence holds only characters of the original. |
| `TodoText.CleanDescriptionProperties` | Altium_TODO/Altium_TODO.py:38 | The cleaned description has no `~`, and no line of it starts with a digit. It is a subsequence of the raw description with `~` made a line break, and it keeps every non-digit of that text in order. |
| `AltiumTodo.FileTodos` | Altium_TODO/Altium_TODO.py:22-43 | An unreadable file yields no entries. A readable one yields one entry per `findall` match, each carrying the file name and well formed. |
| `AltiumTodo.EntryOf` | Altium_TODO/Altium_TODO.py:34-39 | Definition of the appended tuple: file name, TODO text, cleaned description, colour. It has no contract of its own; `AltiumTodo.EntryWellFormed` characterises it. |
| `AltiumTodo.EntryWellFormed` | Altium_TODO/Altium_TODO.py:32-39 | The entry of a match has the TODO text, description and colour the script's rules allow. |
| `AltiumTodo.FindTodosInSchDoc` | Altium_TODO/Altium_TODO.py:22-43 | The append loop returns exactly `FileTodos`: one entry per match, in match order. |
| `AltiumTodo.PerFile` | Altium_TODO/Altium_TODO.py:56-62 | One list of entries per walked file. |
| `AltiumTodo.SchDocTodos` | Altium_TODO/Altium_TODO.py:58-62 | Definition of one file's contribution: its entries when the name ends in `.SchDoc`, none otherwise. It has no contract of its own; `AltiumTodo.AllTodosWellFormed` and `AltiumTodo.SearchTodosInDirectory` characterise it. |
| `AltiumTodo.FlattenAppend` | Altium_TODO/Altium_TODO.py:61-62 | Joining two runs of lists is joining each run and then the two results. |
| `AltiumTodo.FlattenFrom` | Altium_TODO/Altium_TODO.py:61-62 | Every joined entry comes from one of the joined lists. |
| `AltiumTodo.AllTodosWellFormed` | Altium_TODO/Altium_TODO.py:55-63 | Every entry of the search comes from a file whose name ends in `.SchDoc` and is well formed. |
| `AltiumTodo.AllTodos` | Altium_TODO/Altium_TODO.py:55-63 | Definition of the search result. It has no contract of its own; `AllTodosWellFormed`, `AllTodosAppend` and `SearchTodosInDirectory` characterise it. |
| `AltiumTodo.AllTodosAppend` | Altium_TODO/Altium_TODO.py:55-63 | Walk order is kept: the entries of two runs of files are those of the first run followed by those of the second. |
| `AltiumTodo.SearchTodosInDirectory` | Altium_TODO/Altium_TODO.py:55-63 | The extend loop returns exactly `AllTodos`: the entries of every `.SchDoc` file, in walk order. |

## Left out

- Reading files, `os.walk`, `os.path.join` and `os.path.basename`, and the `except` that prints a read error. These are I/O. A walked file comes in as its base name and its content, with None for a file that cannot be read. The `errors='ignore'` decoding is part of that I/O.
- All printing: the ANSI colour codes (including the red wrapping of the TODO text, which the model keeps as plain text), the column alignment of `main`, and `print_pin_data`. These are presentation only.
- Both `main` functions: the command line, `input()` and the pin-list parsing. These are glue.
- `EngNotation.FormatEngineeringNotation`: numbers are exact `real`s, so floating-point rounding, infinities and NaN are not modelled. `float()` is a parameter `string -> Option<real>`. The `:.3f` rendering is left out; the method returns the mantissa, exponent and prefix that are rendered.
- `IbisParser.ParseIbis`: the IndexError of a short pin row is returned as `Failure(MalformedRow(i))` instead of being raised. The file read is left out: the method takes the list of lines.
- `TodoText.CleanDescription`: `\d` is modelled as the ASCII digits 0-9. Python's `\d` on a `str` also matches other Unicode decimal digits.
- A non-keyword `C_comp` line inside a `[Pin]` table both sets the capacitance and is read as a pin row, because the source checks the two rules independently. The model follows the source.
- Zero is not special-cased: the second loop runs the exponent down to -12, so 0 comes out as `0.000 p`, which the model follows.
- Python's general regular-expression engine is not modelled. The one fixed pattern is modelled by hand, including how it backtracks.
