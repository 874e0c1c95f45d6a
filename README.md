# Number grouping, glossary snippets and a remainder test, in Dafny

This project models three small Python programs and proves properties of
the models.

- **Numbers/Formatting.py** has two functions, both named
  `add_commas_to_number`, that insert digit-group commas into the text of a
  number. The first works on an int (`Formatting.AddCommasToNumber`). The
  second works on the text of a decimal value and never puts a comma in
  front of a '.' (`Formatting.AddCommasToDecimal`). Both are imperative
  methods. Each keeps the source's `while` loop, its `i`/`count`/`output`
  variables and its one-character slices. Each is proved equal to a
  function that gives the accumulator after `k` steps (`IntGrouped`,
  `DecGrouped`). The integer version is then related to an independent
  definition that groups from the right (`GroupThrees`).
- **Master.py** holds the LaTeX part of a glossary-entry generator:
  - the `LATEX_SPECIALS` table and `latex_escape`, an imperative loop
    proved equal to a character-wise map (`Escaped`), which an `Unescape`
    function inverts;
  - `sanitize_key` (strip, spaces to underscores, keep the allowed
    characters);
  - `make_glossary_entry`, a method that checks three fields, appends the
    optional ones conditionally and joins them into a
    `\newglossaryentry` snippet.

  The `ValueError`s become `Err` values of a `Result`.
- **EuclidAlgorithm.py** is a recursive function. It returns `n` when `n`
  divides `m`. Otherwise it makes one recursive call, discards that
  call's result and returns `None`. It is modelled as written, with
  Python's floor remainder (`PyMod`) and `None` as `Option.None`.
  `Abs(n)` is the termination measure.

The model follows the code, including where it departs from conventional
digit grouping or from its own comments:

- The formatters are headed only by "Nicely Format Numbers for
  readability" and the example `12500 -> 12,500` (Numbers/Formatting.py:2
  and 42). Conventional grouping would count from the decimal point and
  leave a minus sign out, but both formatters count positions from the
  RIGHT END OF THE WHOLE TEXT and never from the decimal point. So
  `100.5` comes out as `10,0.5` and `1.234` as `1.,234`
  (`Formatting.DecExampleOneDecimal`, `Formatting.DecExampleThreeDecimals`).
- A minus sign is counted as a character, so `-100000` comes out as
  `-,100,000` (`Formatting.IntExampleNegative`).
- The comment above `EuclidAlgorithm` (EuclidAlgorithm.py:2-3) promises a
  greatest common divisor. The code delivers one only when `n` divides
  `m`: it returns `None` for `(49, 10)` (`Euclid.EuclidExamples`). No
  corrected version is part of the model.

Files:

- `wrappers.dfy`: `Option` and `Result`.
- `formatting.dfy`: the two formatters.
- `master.dfy`: escaping, key sanitising and the glossary entry.
- `euclid.dfy`: the remainder test.

## Model

| member | source | states |
|---|---|---|
| Formatting.PyStr | Numbers/Formatting.py:14-16 | `str(input)` of an int is non-empty and has no comma, and it starts with '-' exactly when the number is negative |
| Formatting.ValueStr | Numbers/Formatting.py:14 | reading the decimal numeral of a natural number back gives the number |
| Formatting.AddCommasToNumber | Numbers/Formatting.py:12-29 | the loop's output is the formatter function on `str(input)`; dropping its commas gives `str(input)` back; it holds `(len - 1) // 3` commas; it starts with the first character of `str(input)` |
| Formatting.IntGroupedIsGroupThrees | Numbers/Formatting.py:19-28 | after `k` iterations, `output` is the last `k` characters grouped by threes from the right, with a leading comma exactly when step `k` was a comma step |
| Formatting.IntCommasIsGroupThrees | Numbers/Formatting.py:19-29 | the integer formatter equals the independent definition that splits off three characters at a time from the right and joins with commas |
| Formatting.IntCommasShort | Numbers/Formatting.py:19-29 | texts of at most three characters come back unchanged |
| Formatting.IntCommasRemove | Numbers/Formatting.py:19-29 | the formatter only inserts commas: removing all commas from the output gives the input with its commas removed |
| Formatting.IntCommasCount | Numbers/Formatting.py:21-25 | the formatter adds exactly `(len - 1) // 3` commas |
| Formatting.IntCommasFirst | Numbers/Formatting.py:22-25 | the output starts with the input's first character, so it never starts with an added comma |
| Formatting.IntCommasOnPlainText | Numbers/Formatting.py:12-29 | on comma-free text, the output minus its commas is the input, it holds `(len - 1) // 3` commas, and it starts with the input's first character |
| Formatting.IntFormatterRoundTrip | Numbers/Formatting.py:12-29 | for a non-negative int, removing the commas from the output and reading the digits gives the input number back |
| Formatting.GroupThreesLayout | Numbers/Formatting.py:19-29 | grouping a comma-free text by threes adds `(len - 1) // 3` characters, and position `j` is a comma exactly when `j > 0` and the distance from `j` to the end is a multiple of four |
| Formatting.IntCommasLayout | Numbers/Formatting.py:19-29 | the integer formatter's output has length `len + (len - 1) // 3`, with a comma exactly where the distance to the end is a multiple of four, never at position 0 |
| Formatting.NumeralTrillion | Numbers/Formatting.py:14 | `str(1000000000000)` is the text `1000000000000` |
| Formatting.IntExampleTrillion | Numbers/Formatting.py:5-6 | the formatter on `str(1000000000000)` gives `1,000,000,000,000` (the numeral itself is proved in `NumeralTrillion`) |
| Formatting.NumeralFiftyBillion | Numbers/Formatting.py:14 | `str(50000000000)` is the text `50000000000` |
| Formatting.IntExampleFiftyBillion | Numbers/Formatting.py:7-8 | the formatter on `str(50000000000)`, the value the script prints, gives `50,000,000,000` |
| Formatting.NumeralHundredFiftyTrillion | Numbers/Formatting.py:14 | `str(150000000000000)` is the text `150000000000000` |
| Formatting.IntExampleHundredFiftyTrillion | Numbers/Formatting.py:9-10 | the formatter on `str(150000000000000)` gives `150,000,000,000,000` |
| Formatting.NumeralNegative | Numbers/Formatting.py:14 | `str(-100000)` is the text `-100000` |
| Formatting.IntExampleNegative | Numbers/Formatting.py:12-29 | the formatter on `str(-100000)` gives `-,100,000`, because the sign is counted as a character |
| Formatting.AddCommasToDecimal | Numbers/Formatting.py:45-64 | the loop's output is the decimal formatter function on the text; removing commas gives the text with its commas removed; without a '.', the result equals the integer formatter's; a non-empty text keeps its first character |
| Formatting.DecCommasRemove | Numbers/Formatting.py:52-63 | the decimal formatter only inserts commas |
| Formatting.DecCommasNoPoint | Numbers/Formatting.py:54-60 | on text without a '.', the decimal formatter is the integer formatter |
| Formatting.DecCommasDropsBeforePoint | Numbers/Formatting.py:54-58 | on comma-free text, the decimal formatter is the integer formatter with every comma that stands right before a '.' taken out |
| Formatting.DecCommasNoCommaBeforePoint | Numbers/Formatting.py:55-56 | on comma-free text, no comma of the output is followed by a '.' |
| Formatting.DecCommasFirst | Numbers/Formatting.py:57-60 | the output starts with the text's first character |
| Formatting.DecExampleTwoDecimals | Numbers/Formatting.py:45-64 | `12500.75` is formatted as `12,500.75` |
| Formatting.DecExampleOneDecimal | Numbers/Formatting.py:45-64 | `100.5` is formatted as `10,0.5`, because positions count from the end of the whole text |
| Formatting.DecExampleThreeDecimals | Numbers/Formatting.py:45-64 | `1.234` is formatted as `1.,234`, so a comma may follow the point |
| Master.LatexSpecialsShape | Master.py:6-17 | every replacement in the table is at least two characters long and starts with a backslash |
| Master.EscapeChar | Master.py:25 | every character escapes to a non-empty text |
| Master.LatexEscape | Master.py:19-26 | the loop's result is the character-wise escaping of the text, empty text included |
| Master.EscapedAppend | Master.py:24-26 | escaping distributes over concatenation |
| Master.EscapedLength | Master.py:24-26 | escaping never shortens a text |
| Master.EscapedPlain | Master.py:24-25 | text without special characters is unchanged |
| Master.EscapedEmpty | Master.py:21-26 | the escaped text is empty exactly when the text is empty |
| Master.UnescapeEscaped | Master.py:6-26 | unescaping the escaped text gives the text back |
| Master.EscapedInjective | Master.py:6-26 | different texts escape to different texts |
| Master.StripLeft | Master.py:30 | the result is a suffix of the input, everything removed is whitespace, and the result does not start with whitespace |
| Master.StripRight | Master.py:30 | the result is a prefix of the input, everything removed is whitespace, and the result does not end with whitespace |
| Master.Strip | Master.py:30 | the result neither starts nor ends with whitespace |
| Master.StripSlice | Master.py:30 | the strip is the slice `s[a..b]` of the text, and everything before `a` and from `b` on is whitespace |
| Master.StripUnchanged | Master.py:30 | text with no whitespace at either end is its own strip |
| Master.ReplaceSpaces | Master.py:31 | same length, and each character is the input's, with ' ' turned into '_' |
| Master.KeepAllowed | Master.py:33-34 | only allowed characters remain, and the result is no longer than the input |
| Master.KeepAllowedSubsequence | Master.py:34 | the kept characters are a subsequence of the input, in order |
| Master.KeepAllowedCounts | Master.py:33-34 | every allowed character keeps its number of occurrences, and every other character occurs zero times |
| Master.SanitizeKey | Master.py:28-34 | the key holds only letters, digits, '-' and '_', and no space |
| Master.SanitizeKeySubsequence | Master.py:28-34 | the sanitised key is a subsequence of the stripped key with spaces replaced |
| Master.SanitizeKeyIdempotent | Master.py:28-34 | sanitising a sanitised key changes nothing |
| Master.EntryFields | Master.py:58-65 | the field list has two to five entries, name first and description last, plus one entry per non-empty optional value |
| Master.EntryFieldsPresent | Master.py:59-64 | the symbol, user1 and plural fields each appear exactly when their value is non-empty |
| Master.JoinLength | Master.py:67 | the joined body is as long as the fields plus one separator between each pair |
| Master.SnippetKey | Master.py:68 | for a sanitised key, the snippet starts with `\newglossaryentry{`, then the key, then the first '}' |
| Master.MakeGlossaryEntry | Master.py:38-69 | the three checks in the source's order, each with its message: the sanitised key is empty, the stripped name is empty, the stripped description is empty; otherwise the snippet of the sanitised key and the escaped, stripped fields |
| Euclid.PyMod | EuclidAlgorithm.py:7 | Python's `%`: the remainder has the sign of the divisor, is smaller than it in magnitude, and satisfies `m == n * (m // n) + r` |
| Euclid.PyModZero | EuclidAlgorithm.py:7-8 | Python's remainder is zero exactly when `n` divides `m` |
| Euclid.EuclidAlgorithm | EuclidAlgorithm.py:5-13 | the result is present exactly when `n` divides `m`, and then it is `n`; otherwise the recursive call's result is discarded and the result is `None` |
| Euclid.EuclidAnswerIsGreatest | EuclidAlgorithm.py:2-13 | for positive `n`, an answer, when there is one, divides both numbers and is at least as large as every positive common divisor |
| Euclid.EuclidExamples | EuclidAlgorithm.py:15-17 | `(50, 5)` gives 5, `(49, 7)` gives 7, `(49, 10)` gives `None` |

## Left out

- The tkinter window of Master.py (lines 72 onward): widgets, clipboard, file dialogs and message boxes are user interface and I/O.
- The module-level script code: the `input` assignments and `print` calls of Numbers/Formatting.py and the `print` calls of EuclidAlgorithm.py. The values they print are stated as the example lemmas.
- Formatting.AddCommasToDecimal: takes the text `str(input)` rather than a float, because Python's float-to-text conversion is not modelled. Of non-string values, only ints are modelled, by Formatting.PyStr.
- Formatting.AddCommasToNumber: does not model CPython's limit on int-to-text conversion. `str(input)` raises `ValueError` for ints of more than 4300 digits, whereas `Formatting.PyStr` is total, so the model returns a formatted text where Python raises.
- Formatting.AddCommasToNumber: the second definition of `add_commas_to_number` replaces the first when the Python module is loaded. The model keeps both as separate methods under separate names.
- Euclid.EuclidAlgorithm: requires `n != 0`. The divisor zero makes Python raise `ZeroDivisionError`, and that exception is not modelled. Only the top-level call can see a zero divisor, since the recursive call's divisor is a non-zero remainder.
- Euclid.EuclidAlgorithm: does not model the float quotient `d = m / n`. That value is never used, but computing it raises `OverflowError` when the quotient is beyond float range, for example for `(10**400, 1)`. The model then gives `Some(1)` where Python raises.
- Euclid.EuclidAlgorithm: does not model Python's recursion limit. Inputs that need about a thousand Euclid steps, such as two consecutive Fibonacci numbers of about 200 digits, raise `RecursionError` in CPython. The model gives `None` for them.
- Master.MakeGlossaryEntry: the arguments are strings. Calling `.strip()` on a non-string raises in Python, and that case is not modelled.
