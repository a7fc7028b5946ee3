# Smart meter P1 reader — a Dafny model

The program reads telegrams from a Dutch smart meter's P1 serial port and
writes a few readings to a time-series database. Its core is two functions
of `src/smart_meter.py`, and this project models both of them:

- `get_next_message` frames a telegram by counting lines. Every line is
  stripped and kept. A line that contains a backslash resets the counter to
  zero. On meters whose identification line holds a backslash, such as
  `/ISk5\2MT382-1000`, that is the line that opens a telegram. An
  identification line without one, such as Kaifa's `/KFM5KAIFA-METER`,
  never resets the counter. Each line then adds one to the counter, and reading
  stops when the counter reaches 26. The list of lines is never cleared. If
  reading starts in the middle of a telegram, the lines of that partial
  telegram stay at the front of the result.
- `convert_message_to_data` scans the lines in order. A line that starts
  with one of four OBIS reduced identifiers has a fixed character range cut
  out of it, and that text is parsed with `float()`. The four identifiers are
  `1-0:1.8.1` and `1-0:1.8.2` for the two tariff meters, `1-0:1.7.0` for
  actual power and `0-1:24.2.1` for gas. The value is stored under the
  identifier's key, and a later line overwrites an earlier one. A slice that
  does not parse raises `ValueError`. Finally the two tariff readings are
  summed into `meter_total_tariff`. This happens unconditionally, so a
  telegram that lacks either tariff raises `KeyError`.

The code comment at `src/smart_meter.py:82` mentions `KAIFA`, but the test
on the line is for a backslash. The model follows the code.

Modules, one per concern:

| file | module | contents |
|---|---|---|
| `wrappers.dfy` | `Wrappers` | `Option` and `Result` |
| `text.dfy` | `Text` | `str.strip()` and the narrower trimming of `float()` on ASCII whitespace, `startswith`, clamped slicing |
| `decimal.dfy` | `Decimal` | an exact decimal parser standing in for `float()` |
| `framing.dfy` | `Framing` | the line-counting framer `NextMessage` and the counter it keeps |
| `conversion.dfy` | `Conversion` | the four field rules, the loop `Collect`, the total `AddTotal`, and `Convert` |

The serial port is a finite sequence of raw lines. A read that times out
(the port's timeout is set at `src/smart_meter.py:39`) appears in it as an
empty or partial line. Python exceptions are `Failure` values: `None` from
`ParseFloat` is `float()`'s `ValueError`, and `ConvertError` names the
exception `convert_message_to_data` raises.

## Model

| member | source | states |
|---|---|---|
| Framing.NextMessage | src/smart_meter.py:70-89 | A returned message is the stripped prefix of the input after which the counter first equals 26, and the counter stayed below 26 before that point. `None` is returned exactly when the counter never reaches 26 on the whole input. |
| Framing.MessageUnique | src/smart_meter.py:70-89 | At most one message satisfies the framer's contract for a given input, so the result is determined by the input. |
| Framing.MessageShape | src/smart_meter.py:74-87 | A framed message has at least 26 lines, and none of its last 25 lines holds a backslash. If some line holds one, the last such line is the 26th from the end. If none does, the message is exactly 26 lines. |
| Framing.CounterSinceMarker | src/smart_meter.py:71-87 | `Counter`, the value of `line_counter` after a run of lines, is the number of lines since the last backslash line (`IsMarker`, the test `"\\" in line` at line 84), that line included, or the number of all lines when there is none. |
| Framing.CounterOfStripped | src/smart_meter.py:80-87 | Counting stripped lines gives the same counter as counting the raw lines. |
| Framing.MarkerSurvivesStrip | src/smart_meter.py:80-84 | A stripped line holds a backslash exactly when the raw line does. |
| Framing.HeaderCounting | src/smart_meter.py:82-87 | Despite the comment naming `KAIFA`, only a backslash resets the counter. Kaifa's `/KFM5KAIFA-METER` adds one to the count like any other line, and `/ISk5\2MT382-1000` restarts it at one. |
| Text.TrimSpec | src/smart_meter.py:80 | `Strip` (`str.strip()`, which removes space, TAB..CR and the separators 0x1C..0x1F) and the trimming `float()` does return the infix of the line that neither starts nor ends with a removable character. Everything around that infix is removable. |
| Text.TrimIdempotent | src/smart_meter.py:80 | Stripping a stripped line changes nothing. |
| Text.TrimOfTrimmed | src/smart_meter.py:80 | A line with no removable character at either end strips to itself. |
| Text.TrimKeeps | src/smart_meter.py:80 | Stripping neither adds nor removes any character that is not removable. |
| Text.SliceSpec | src/smart_meter.py:99-123 | `Slice`, the clamped slice `line[lo:hi]`, holds the characters from `lo` onward, as many as fit below both `hi` and the end of the line. It is empty when `lo` lies past either of them. |
| Decimal.ParseFloatAccepts | src/smart_meter.py:100 | A text `ParseFloat` accepts has only digits, points, signs and `float()`'s whitespace (space and TAB..CR), and it has at least one digit. |
| Decimal.ParseFloatRejects | src/smart_meter.py:100 | `ParseFloat` rejects any text holding a character that is neither a digit, a point, a sign nor `float()`'s whitespace. |
| Decimal.SeparatorNotPadding | src/smart_meter.py:100 | The separator 0x1C is whitespace to `str.strip()`, which turns `"1\x1c"` into `"1"`, but not to `float()`, so `float("1\x1c")` raises. |
| Decimal.ParseFloatIgnoresPadding | src/smart_meter.py:100 | Surrounding space and TAB..CR, the whitespace `float()` skips, do not change the parsed value. |
| Decimal.ParseFixedText | src/smart_meter.py:100 | Digits, a point and more digits (either run may be empty, not both) parse to exactly the fixed-point value they denote. The same `float()` reads the slices at lines 108, 116 and 124, so this gives the value of the energy slice `[10:16]` and the gas slice `[26:35]` as well. |
| Decimal.ParseSignedFixed | src/smart_meter.py:100 | An optional `+` or `-`, digits, a point and digits parse to the fixed-point value, negated under `-`. |
| Decimal.ParseSignedDigits | src/smart_meter.py:100 | An optional `+` or `-` followed by digits without a point parse to the integer they denote, negated under `-`. |
| Decimal.ParseFixed | src/smart_meter.py:100 | A zero-padded rendering `i.f` of a number with `i < 10^w` and `f < 10^k` parses back to `i + f / 10^k`. This is the round trip between rendering a reading and `float()`. |
| Conversion.RulesDisjoint | src/smart_meter.py:97-121 | With `StartsWith` as `line.startswith`, no line starts with two of the four identifiers, and the four keys are pairwise distinct. |
| Conversion.ApplyRulesAtMostOne | src/smart_meter.py:96-126 | `ApplyRules` runs the four `if` blocks in order. When at most one block's prefix matches, running the blocks in sequence gives the same result as running only that block. When no prefix matches, the reading is unchanged. |
| Conversion.ConvertLine | src/smart_meter.py:96-126 | One pass of the loop body leaves the reading unchanged when the line starts with no identifier. Otherwise it is the effect of the single rule that matches. |
| Conversion.LineOutcome | src/smart_meter.py:96-126 | One pass fails exactly when a field the line carries does not parse. The error then names that field's slice. |
| Conversion.LineEffect | src/smart_meter.py:96-126 | After a successful pass, the matched key holds the parsed value and every other key keeps its presence and value. No key outside the four field keys is added. |
| Conversion.StoreEffect | src/smart_meter.py:97-126 | `Store` is the body of one `if` block. A line carrying rule `m` with a parsable field stores exactly that value under `m`'s key. The line matches no other rule. |
| Conversion.Collect | src/smart_meter.py:94-126 | `Collect` is the `for` loop. When it completes, the reading holds only the four field keys. |
| Conversion.CollectSucceeds | src/smart_meter.py:94-126 | The loop over the message completes exactly when every field that every line carries parses. |
| Conversion.CollectFirstError | src/smart_meter.py:94-126 | A failing loop reports the `ValueError` for the first unparsable field in message order. |
| Conversion.CollectKeys | src/smart_meter.py:94-126 | After the loop, a field key is present exactly when some line starts with its identifier. |
| Conversion.CollectLastWins | src/smart_meter.py:94-126 | After the loop, each present field holds the value read from the last line that carries its identifier. |
| Conversion.CollectIgnores | src/smart_meter.py:94-126 | Removing a line that carries no identifier, from anywhere in the message, does not change the loop's result. |
| Conversion.CollectStep | src/smart_meter.py:94-126 | After a successful prefix of the message, the loop's result is one more pass of the body on the next line. |
| Conversion.AddTotal | src/smart_meter.py:128 | The total is added exactly when both tariffs are present, and it is their sum. Otherwise a `KeyError` names the low tariff if it is missing, else the normal tariff. Every other key keeps its value. |
| Conversion.Convert | src/smart_meter.py:92-129 | A successful conversion has only known keys, always contains both tariffs and the total, and the total equals their sum. |
| Conversion.ConvertOutcome | src/smart_meter.py:92-129 | The conversion succeeds exactly when every carried field parses and both tariff identifiers occur. If some field does not parse, the first such field raises `ValueError`. Otherwise a missing low tariff raises `KeyError` for it; failing that, a missing normal tariff does. |
| Conversion.ConvertFields | src/smart_meter.py:93-128 | In a successful conversion, each field key is present exactly when its identifier occurs, with the value read from the last line carrying it. |
| Conversion.UnrelatedLineIgnored | src/smart_meter.py:92-129 | Lines that carry none of the four identifiers do not affect the conversion. This covers header lines, timestamps, other OBIS codes and the CRC line. |
| Conversion.RegisterLineValue | src/smart_meter.py:97-108 | For a register line `id(IIIIII.FFF*unit)` under a tariff identifier (`1-0:1.8.1` or `1-0:1.8.2`), the slice `[10:20]` is exactly the number, and it parses to its value. |
| Conversion.RegisterTelegram | src/smart_meter.py:92-129 | A message `a + [l1] + b + [l2] + c`, where `l1` carries the low tariff, `l2` the normal tariff and no line of `a`, `b` or `c` carries any identifier, converts to exactly those two readings and their sum. |
| Conversion.TariffTelegram | src/smart_meter.py:92-129 | The same for register lines `1-0:1.8.1(IIIIII.FFF*unit)` and `1-0:1.8.2(IIIIII.FFF*unit)`, with any unit, among any number of unidentified lines. The result holds exactly the two values the digits denote and their exact sum. |

## Left out

- The main loop, the logger, the environment-variable configuration, the serial port setup, the database client and `send_data_to_influxdb` (`src/smart_meter.py:9-67`, `131-143`). These are I/O and are outside the core.
- Timestamps, CRC checking and dialect handling: the code does none of them, so they are not in the model.
- The exception handlers at `src/smart_meter.py:44`, `65` and `77` catch names that are never defined. A failing `readline` is not modelled: the port is a finite sequence of lines that can always be read.
- UTF-8 decoding at `src/smart_meter.py:80`: the model takes already-decoded lines, so `UnicodeDecodeError` is not modelled.
- The `logging.info` calls in `convert_message_to_data` have no effect on the result and are not modelled.
- Framing.NextMessage: the serial stream never ends, but the model's input is finite. When the input runs out before the counter reaches 26, the model returns `None`; the program would keep waiting.
- Text.Strip: only ASCII whitespace is removed: space, TAB..CR and the separators 0x1C..0x1F, which are what `str.strip()` removes in ASCII. The port uses seven data bits (`src/smart_meter.py:34`), so other Unicode whitespace cannot arrive on it.
- Decimal.ParseFloat: this accepts less than `float()`. It accepts only an optional sign followed by decimal digits with at most one point, surrounded by space and TAB..CR, the ASCII whitespace `float()` skips. It rejects exponents, `inf`, `nan` and digit-group underscores, which `float()` accepts; a meter does not emit them in these fields.
- Decimal.ParseFloat: values are exact rationals, not IEEE-754 doubles. Binary rounding of the parsed values and of the total at `src/smart_meter.py:128` is not modelled.
