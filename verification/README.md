# pyw3mimg: the w3mimgdisplay line protocol, in Dafny

pyw3mimg drives `w3mimgdisplay`, the helper program w3m uses to put images
on a terminal. A `W3MImageDisplay` session starts the helper and turns each
typed call into a command line on the helper's standard input. The opcode and
the integers are ASCII; a path is copied byte for byte, so a path holding a
newline splits its command over two lines:

| call | line |
|---|---|
| `draw` | `0;n;x;y;w;h;sx;sy;sw;sh;path` |
| `redraw` | `1;n;x;y;w;h;sx;sy;sw;sh;path` |
| `terminate` | `2;` |
| `sync` | `3;` |
| `nop` | `4;`, then one reply line is read and dropped |
| `get_size` | `5;path`, then one reply line `width height` is read and parsed |
| `clear` | `6;x;y;w;h` |

Every line ends with a newline. The integers are written in `%d` form. With
auto-sync on, which is the default, every draw and redraw line is followed at
once by a sync line.

The model has four modules:

- `Wrappers` holds `Option` and `Result`.
- `Ascii` holds bytes and the three Python built-ins the session relies on.
  `Decimal` is `%d`. `ParseInt` is `int()` on one field. `Split` is `split(" ")`.
- `Protocol` holds the opcodes (`Opcode`, the `W3MOpcode` enum) and the encoder
  for each command line (`DrawLine`, `TerminateLine`, `SyncLine`, `NopLine`,
  `GetSizeLine`, `ClearLine`, and `Encode` over a `Command` value). It also
  holds `ParseSize`, the parse of the `get_size` reply. `Decode` is the exact
  inverse of `Encode` on the commands whose path holds no newline (`Framed`);
  on the others `Encode` writes more than one line and `Decode` rejects it. It
  reads integers only in their canonical `%d` form, and
  it exists to state the round trip.
- `Display` holds the session class `W3MImageDisplay`. The helper's standard
  input becomes the field `written`, which gets one entry per `write` call.
  `Wire()` is the byte stream those entries make. The helper's standard output
  becomes a `reply` parameter on `nop` and `get_size`. The field `received`
  logs every reply line that was read.

Paths are byte strings. `get_size` failures are `SizeError` values:
`InvalidInteger(i)` stands for the `ValueError` that `int()` raises on field
`i`, and `MissingField` stands for the `IndexError` that `wh[1]` raises.

Three behaviours of the code are easy to miss, and the model keeps them:

- The reply is split on single spaces, not on runs of whitespace. So `"100  200"` fails.
- Nothing ensures the terminate line is sent only once. An explicit
  `terminate()` followed by the finaliser sends it twice.
- A session has no lifecycle state. Commands can still be written after `terminate`.

## Model

| member | source | states |
|---|---|---|
| Protocol.Opcode.Value | pyw3mimg/__init__.py:7-30 | each opcode stands for an integer between 0 and 6 |
| Protocol.OpcodeOf | pyw3mimg/__init__.py:7-30 | `W3MOpcode(v)` finds an opcode exactly for 0 ≤ v ≤ 6, and that opcode's value is v |
| Protocol.OpcodeValuesDistinct | pyw3mimg/__init__.py:7-30 | two opcodes have the same value only if they are the same opcode, and `OpcodeOf` maps each value back to its opcode |
| Ascii.IsSpace | pyw3mimg/__init__.py:132 | the whitespace `int()` skips around a number (tab, line feed, vertical tab, form feed, carriage return, space) is never a digit, a sign or an `_`, so stripping it cannot shorten the number |
| Ascii.NatDigits | pyw3mimg/__init__.py:66 | `%d` of a natural number is a non-empty run of decimal digits with no leading zero |
| Ascii.Decimal | pyw3mimg/__init__.py:66 | `%d` of an integer starts with `-` exactly when the integer is negative, and every other byte is a digit |
| Ascii.DecimalHasNoSeparator | pyw3mimg/__init__.py:66 | a formatted integer never contains `;`, a newline or a space, so it cannot break a field or a line |
| Ascii.NatDigitsValue | pyw3mimg/__init__.py:66 | the digits `%d` produces form a valid Python digit run whose value is the number |
| Ascii.TrimStart | pyw3mimg/__init__.py:132 | strips exactly the leading whitespace that `int()` ignores, and leaves a remainder that starts with non-whitespace |
| Ascii.TrimEnd | pyw3mimg/__init__.py:132 | strips exactly the trailing whitespace, such as the reply's newline, that `int()` ignores |
| Ascii.ParseInt | pyw3mimg/__init__.py:132 | `int(field)` succeeds only on a field that contains a digit |
| Ascii.StripPaddedRight | pyw3mimg/__init__.py:132 | trailing whitespace of any length is stripped before conversion |
| Ascii.ParseIntDecimal | pyw3mimg/__init__.py:131-132 | `int` applied to the `%d` form of i, followed by any whitespace, gives back i |
| Ascii.ParseDecimal | pyw3mimg/__init__.py:66 | the canonical integer reader accepts a field only when the field is the `%d` form of its result |
| Ascii.ParseDecimalIff | pyw3mimg/__init__.py:66 | the canonical integer reader returns i exactly on the `%d` form of i |
| Ascii.ParseIntNeedsDigit | pyw3mimg/__init__.py:132 | a field without digits, such as `abc` or an empty one, raises `ValueError` |
| Ascii.Split | pyw3mimg/__init__.py:131 | `split(" ")` returns at least one field, and exactly one field when the input has no space |
| Ascii.SplitSeparates | pyw3mimg/__init__.py:131 | no field that `split(" ")` returns contains a space |
| Ascii.JoinSplit | pyw3mimg/__init__.py:131 | joining the split fields with the separator gives back the input, so nothing is lost or reordered |
| Ascii.SplitAfter | pyw3mimg/__init__.py:131 | a space-free field followed by a space splits off as the first field |
| Ascii.SplitWhole | pyw3mimg/__init__.py:131 | a line without a space is a single field |
| Ascii.SplitFirst | pyw3mimg/__init__.py:131 | the first field is a prefix of the line |
| Protocol.DrawLine | pyw3mimg/__init__.py:66 | the draw line starts with the opcode's `%d` value and `;`, ends with the path and a newline, and has no newline before the path |
| Protocol.TerminateLine | pyw3mimg/__init__.py:109 | `2;` and a newline is the terminate opcode as a lone `;`-terminated field, then a newline |
| Protocol.SyncLine | pyw3mimg/__init__.py:115 | `3;` and a newline is the sync-drawing opcode as a lone `;`-terminated field, then a newline |
| Protocol.NopLine | pyw3mimg/__init__.py:121 | `4;` and a newline is the sync-communication opcode as a lone `;`-terminated field, then a newline |
| Protocol.GetSizeLine | pyw3mimg/__init__.py:130 | `5;path` and a newline is the get-size opcode as a `;`-terminated field, then the path, then a newline |
| Protocol.ClearLine | pyw3mimg/__init__.py:138 | the clear line ends with a newline and holds no other, so it is exactly one line whatever the integers |
| Protocol.Encode | pyw3mimg/__init__.py:62-138 | every command the session issues is written as bytes that end with a newline |
| Protocol.EncodeShape | pyw3mimg/__init__.py:62-138 | every command line starts with its opcode's `%d` value and `;`, ends with a newline, and has no other newline exactly when its path has none |
| Protocol.FieldsNoNewline | pyw3mimg/__init__.py:66 | the `;`-terminated integer fields of a line contain no newline |
| Protocol.DecodeEncode | pyw3mimg/__init__.py:62-66 | a command whose path has no newline decodes back from its line to the same command, including draw paths that contain `;` |
| Protocol.EncodeDecode | pyw3mimg/__init__.py:62-138 | a line decodes to a command only if the line is that command's line, byte for byte, and the command's path has no newline |
| Protocol.DecodeIff | pyw3mimg/__init__.py:62-138 | decoding a line gives c exactly when c's path has no newline and the line is the encoding of c |
| Protocol.ParseSize | pyw3mimg/__init__.py:130-132 | parsing succeeds only when the reply contains a space, and fails with `IndexError` only when it has none |
| Protocol.ParseSizeFields | pyw3mimg/__init__.py:131-132 | a reply made of a space-free first field holding w, a space, and a rest whose first field holds h parses to (w, h) |
| Protocol.ParseSizeSuccess | pyw3mimg/__init__.py:131-132 | the converse of `ParseSizeFields`: a reply parses to (w, h) only when it has that shape, so together they characterise success exactly |
| Protocol.ParseSizeReply | pyw3mimg/__init__.py:131-132 | the reply `width height` plus a newline parses to (width, height) for every pair of integers |
| Protocol.ParseSizeExtraFields | pyw3mimg/__init__.py:131-132 | fields after the second are ignored, whatever they contain |
| Protocol.ParseSizeOneField | pyw3mimg/__init__.py:132 | a reply that holds a single number raises `IndexError` |
| Protocol.ParseSizeDoubleSpace | pyw3mimg/__init__.py:131-132 | a double space leaves an empty second field, which raises `ValueError` |
| Protocol.ParseSizeNotANumber | pyw3mimg/__init__.py:132 | a reply without digits, such as `abc`, raises `ValueError` on the first field |
| Protocol.ExampleDrawLine | pyw3mimg/__init__.py:70-86 | `draw(path, 1, 0, 0, 64, 64)` writes `0;1;0;0;64;64;0;0;0;0;`, then the path, then a newline; the omitted arguments appear as 0 |
| Protocol.ClearArguments | pyw3mimg/__init__.py:134-138 | what follows the opcode on the clear line is x, y and w, each followed by `;`, then h in `%d` form |
| Protocol.ExampleSizeReply | pyw3mimg/__init__.py:131-132 | the reply `100 200` plus a newline gives (100, 200) |
| Protocol.ExampleBadReply | pyw3mimg/__init__.py:132 | the reply `abc` plus a newline raises `ValueError` |
| Display.Concat | pyw3mimg/__init__.py:59-60 | the helper's input is empty before the first write, and starts with the first write's bytes after it |
| Display.ConcatAppend | pyw3mimg/__init__.py:53-60 | the byte stream of two batches of writes is the first batch's bytes followed by the second's |
| Display.W3MImageDisplay.constructor | pyw3mimg/__init__.py:38-47 | a new session keeps its path and auto-sync flag and has written and read nothing; the defaults are `w3mimgdisplay` and auto-sync on |
| Display.W3MImageDisplay.Wire | pyw3mimg/__init__.py:59-60 | the bytes sent so far are empty before any write and start with the first write's data after it |
| Display.W3MImageDisplay.Write | pyw3mimg/__init__.py:53-60 | `write` appends its argument as one more write and changes nothing else; the byte stream grows by exactly that data |
| Display.W3MImageDisplay.DrawWith | pyw3mimg/__init__.py:62-68 | `_draw` appends the draw line and then, only with auto-sync on, the sync line `3;` |
| Display.W3MImageDisplay.Draw | pyw3mimg/__init__.py:70-86 | `draw` appends `0;n;x;y;w;h;sx;sy;sw;sh;path` and a newline, with omitted sizes as 0, then `3;` and a newline if auto-sync is on |
| Display.W3MImageDisplay.Redraw | pyw3mimg/__init__.py:88-103 | `redraw` behaves like `draw` with opcode 1 |
| Display.W3MImageDisplay.Terminate | pyw3mimg/__init__.py:105-109 | `terminate` appends exactly `2;` and a newline, whatever came before |
| Display.W3MImageDisplay.Sync | pyw3mimg/__init__.py:111-115 | `sync` appends exactly `3;` and a newline |
| Display.W3MImageDisplay.Nop | pyw3mimg/__init__.py:117-122 | `nop` appends exactly `4;` and a newline, consumes exactly one reply line and returns nothing |
| Display.W3MImageDisplay.GetSize | pyw3mimg/__init__.py:124-132 | `get_size` appends `5;path` and a newline, consumes one reply line, and returns the parse of that line |
| Display.W3MImageDisplay.Clear | pyw3mimg/__init__.py:134-138 | `clear` appends exactly `6;x;y;w;h` and a newline |
| Display.W3MImageDisplay.Close | pyw3mimg/__init__.py:49-51 | the finaliser appends the terminate line, even if `terminate` was already called |
| Display.DrawOnce | pyw3mimg/__init__.py:70-86 | a session without auto-sync that draws once has written exactly one line: `0;1;0;0;64;64;0;0;0;0;`, then the path, then a newline |

## Left out

- Starting the helper with `subprocess.Popen` (pyw3mimg/__init__.py:47) and waiting for it to exit with `communicate` (line 51) are operating-system work and are not modelled. The path is kept only as a field.
- Flushing (line 60) and write errors such as a broken pipe are not modelled. Every write succeeds.
- Blocking reads (lines 122, 131) become a `reply` parameter. A helper that never answers, which would hang the caller, is not modelled.
- Paths are bytes. The UTF-8 encoding of a `str` path (`path.encode()`, line 66) is not modelled.
- Display.W3MImageDisplay.GetSize: takes a byte path. The source formats a `str` path with `b'5;%s\n' % path` (line 130), which Python 3 rejects with a `TypeError` before anything is written. The model keeps the line that format produces when given bytes.
- Ascii.ParseInt: covers `int()` on ASCII text only. It strips the ASCII whitespace `int()` strips (tab, line feed, vertical tab, form feed, carriage return, space), accepts an optional `+` or `-`, and accepts digits with single `_` separators. Python also accepts non-ASCII Unicode digits and non-ASCII whitespace, which the model rejects.
- Ascii.ParseInt: does not model the limit on the number of digits that CPython 3.11 and later (and late 3.7 to 3.10 releases) put on converting a string to an integer (4300 by default, set by `sys.set_int_max_str_digits`). Past it `int()` raises `ValueError`; the model converts any length.
- Ascii.Decimal: does not model the same digit limit for `%d` (lines 66 and 138). Past it Python raises `ValueError` and writes nothing; the model formats any integer.
- Protocol.ParseSizeReply: holds for every pair of integers in the model. In CPython with the digit limit, a width or height with more digits than the limit makes `int()` raise `ValueError` instead.
- Protocol.ParseSize: does not model the `UnicodeDecodeError` that `.decode()` raises on a reply that is not valid UTF-8. The model parses the raw bytes. Such a reply fails in both when the bad bytes fall in the first two fields. It differs when they fall only in later fields.
- `%d` also accepts floats and booleans. The model's integer arguments are integers only.
- The interactive `__main__` demo (lines 140-143) is not modelled.
- How the helper parses lines is not part of this model. `Decode` is the canonical inverse of the encoder and is not the helper's own reader.
