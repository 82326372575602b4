# terminalcolor: marker-to-ANSI conversion, modelled in Dafny

The Rust library `terminalcolor` turns a light colour markup into ANSI
terminal escapes. Its function `convert` scans a string from left to
right. A two-character marker is `$` (foreground) or `#` (background)
followed by one of the codes of the table `COLORS`
(`k r g y b m c w 0`), matched after ASCII lowercasing. Each marker
becomes the SGR control sequence `ESC [ n m` (ECMA-48, section 8.3.117):

- `0` gives the reset `ESC [ 0 m` whichever sentinel leads it;
- any other code gives `n` = 30 (foreground) or 40 (background), plus 60
  when the code is upper case (the aixterm "bright" colours), plus the
  code's slot in the table.

Every other character, including the last one of the input, is copied
through, and the cursor moves on by one.

The model has three modules:

- `Decimal` (`decimal.dfy`): base-ten rendering of the SGR parameter, the
  part of `format!` that `convert` uses, with its inverse.
- `TerminalColor` (`terminalcolor.dfy`): the table, the marker rules, the
  reference definition `Convert` (a recursive left-to-right scan), and two
  loops. `ConvertAsWritten` is the source's `while` loop with an output
  buffer and a cursor. It keeps the source's mix of byte length (`s.len()`)
  and character index (`s.chars().nth(i)`), and a failed `unwrap()`
  becomes the outcome `Panicked`. `ConvertChars` is the same loop bounded
  by the character count.
- `ConvertProperties` (`convert_properties.dfy`): decoding an escape back
  to its marker, the one-step rules, the no-lookbehind append law, the
  absence of markers in the output (so converting twice changes nothing,
  and on ASCII text the loop as written can run again on its own output),
  and the documented examples.

## Model

| member | source | states |
|---|---|---|
| `TerminalColor.Colors` | src/lib.rs:1 | the table of the nine codes `k r g y b m c w 0`; slot k < 8 is the colour offset, slot 8 the reset code |
| `TerminalColor.ResetSequence` | src/lib.rs:48 | the literal `ESC [ 0 m` pushed for a reset marker (`ResetIsSgrZero` shows it is the SGR sequence with parameter 0) |
| `ConvertProperties.CaseFolding` | src/lib.rs:42 | `ToAsciiLower`, Rust's `to_ascii_lowercase`, leaves no upper-case letter, maps each upper-case letter to the lower-case letter that upper-casing takes back to it, and leaves every other character alone |
| `ConvertProperties.ColorCodes` | src/lib.rs:42 | `IsColorCode`, the test `COLORS.contains(&color_code.to_ascii_lowercase())`, accepts exactly the 18 characters `krgybmcw0KRGYBMCW` |
| `TerminalColor.Nth` | src/lib.rs:36-41 | `s.chars().nth(i)`, defined by advancing the character iterator `i` times: it finds a character exactly when `i` is below the number of characters, and the character it finds is the `i`-th one, `s[i]` |
| `TerminalColor.Sgr` | src/lib.rs:62 | `format!("\x1b[{}m", n)`: ESC, `[`, the decimal digits of `n`, `m`; its partner `SgrParsesBack` reads `n` back from every such sequence |
| `TerminalColor.Position` | src/lib.rs:52 | the lookup finds a slot exactly when the code is in the table, and the slot it finds is the first one holding the code |
| `TerminalColor.ColorIndex` | src/lib.rs:42-52 | a code that passed the membership test of line 42 has a slot in `COLORS`, so the `unwrap()` of line 52 cannot fail |
| `TerminalColor.SgrCode` | src/lib.rs:53-61 | the parameter lies in 30-37, 40-47, 90-97 or 100-107; it is a foreground one exactly when the sentinel is `$`, and a bright one (at least 90) exactly when the code is upper case |
| `TerminalColor.Escape` | src/lib.rs:47-63 | the replacement of a marker opens with ESC, ends with `m` and holds no sentinel; it is 4 to 6 characters long: 4 exactly for a reset, 6 exactly for a bright background |
| `TerminalColor.Convert` | src/lib.rs:32-67 | the output is never shorter than the input |
| `TerminalColor.Utf8Len` | src/lib.rs:35-37 | the byte length `s.len()` is at least the number of characters, and equal to it exactly when every character is ASCII |
| `TerminalColor.ConvertAsWritten` | src/lib.rs:32-67 | on ASCII text the loop ends without panicking and returns `Convert(s)`; on any text with a non-ASCII character it panics |
| `TerminalColor.ConvertChars` | src/lib.rs:32-67 | the loop with a character-count bound returns `Convert(s)` on every string |
| `Decimal.Render` | src/lib.rs:62 | the rendering of `n` is a non-empty string of decimal digits, with a leading `0` only for zero |
| `Decimal.ValueOfRender` | src/lib.rs:62 | reading the rendered digits back gives `n` |
| `Decimal.RenderLength` | src/lib.rs:62 | one digit below 10, two for 10-99, three for 100-999 |
| `ConvertProperties.SgrParsesBack` | src/lib.rs:62-63 | every colour escape `ESC [ n m` parses back to its parameter `n` |
| `ConvertProperties.ResetIsSgrZero` | src/lib.rs:47-48 | the literal reset sequence is the SGR sequence with parameter 0 |
| `ConvertProperties.ColorsDistinct` | src/lib.rs:1 | no code appears twice in `COLORS` |
| `ConvertProperties.SlotOfColor` | src/lib.rs:1 | looking a code up in `COLORS` gives back the slot that holds its lower-case form |
| `ConvertProperties.MarkerOfSgrCode` | src/lib.rs:52-62 | the marker can be recovered from its parameter, so two different colour markers never give the same escape |
| `ConvertProperties.SgrCodeOfMarker` | src/lib.rs:52-62 | every parameter in the four colour ranges is produced by the marker `MarkerOf` names: colour markers and parameters correspond one to one |
| `ConvertProperties.LoneSentinel` | src/lib.rs:42-45 | a sentinel not followed by a colour code is copied alone, and the next character is examined again |
| `ConvertProperties.ResetMarker` | src/lib.rs:47-50 | `$0` and `#0` both become `ESC [ 0 m` and consume two characters |
| `ConvertProperties.ColorMarker` | src/lib.rs:52-64 | any other marker becomes the SGR sequence of its parameter and consumes two characters |
| `ConvertProperties.ConvertAppend` | src/lib.rs:35-65 | converting a concatenation converts the two parts separately whenever no marker straddles the seam (no lookbehind) |
| `ConvertProperties.SingleCharacter` | src/lib.rs:37-39 | a one-character input, `$` and `#` included, is returned unchanged |
| `ConvertProperties.TrailingSentinel` | src/lib.rs:37-39 | a trailing `$` or `#` is never read as a marker lead; it survives at the end of the output |
| `ConvertProperties.OutputHasNoMarker` | src/lib.rs:42-63 | in the output no sentinel is immediately followed by a colour code |
| `ConvertProperties.NoMarkerUnchanged` | src/lib.rs:35-45 | text holding no marker is returned unchanged |
| `ConvertProperties.NoSentinelUnchanged` | src/lib.rs:35-45 | text with no `$` and no `#` (the empty text among them) is returned unchanged |
| `ConvertProperties.ConvertIdempotent` | src/lib.rs:35-66 | converting an already converted text changes nothing (for the loop as written see `ConvertTwiceAsWritten`) |
| `ConvertProperties.EscapeIsAscii` | src/lib.rs:47-63 | every replacement of a marker is ASCII text |
| `ConvertProperties.ConvertKeepsAscii` | src/lib.rs:32-67 | converting ASCII text gives ASCII text |
| `ConvertProperties.ConvertTwiceAsWritten` | src/lib.rs:32-67 | running `convert` as written on its own result: on ASCII text the first run does not panic and the second returns the same text; on other text the first run panics |
| `ConvertProperties.ForegroundExample` | src/lib.rs:53-63 | `$r` becomes `ESC [ 31 m` |
| `ConvertProperties.BrightExample` | src/lib.rs:58-63 | `$R` becomes `ESC [ 91 m` |
| `ConvertProperties.BackgroundExample` | src/lib.rs:53-63 | `#b` becomes `ESC [ 44 m` |
| `ConvertProperties.ResetExamples` | src/lib.rs:47-50 | `$0` and `#0` both become `ESC [ 0 m` |
| `ConvertProperties.NonMarkerExamples` | src/lib.rs:42-45 | the empty text stays empty, `$x` stays `$x`, and `$$r` becomes `$` followed by `ESC [ 31 m` |
| `ConvertProperties.DocumentationExample` | src/lib.rs:29 | `$rHello, $Bworld!` becomes `ESC [ 31 m Hello, ESC [ 94 m world!` |
| `ConvertProperties.MultiByteDiscrepancy` | src/lib.rs:35-41 | on `"é"` the loop as written panics, while the character-bounded loop returns `"é"` |

## Left out

- `printc` and `printlnc` (src/lib.rs:69-77) are single `print!`/`println!` calls on the result of `convert`. They are standard-output I/O, so they are not modelled.
- A solid-colour printing helper with its own colour-name table is not part of this model. It is not in src/lib.rs, and it does not use `convert`.
- Rust `String` allocation and the general `format!` machinery are not modelled. Only the decimal rendering of the parameter at src/lib.rs:62 is.
- `char::is_uppercase` (src/lib.rs:58) is Unicode-aware; the model tests ASCII `A`-`Z`. This is exact, because only codes that passed the table check of line 42 reach that test, and those are ASCII.
- A panic is modelled as the outcome `Panicked`. Unwinding and process abort are not modelled.
- `usize` arithmetic is modelled with unbounded naturals. Inside the loop `s.len() - 1` cannot underflow, because `i < s.len()`, and the cursor never exceeds `s.len()`.
- `MultiByteDiscrepancy` checks one input. `ConvertAsWritten`'s contract covers every non-ASCII input.

## Findings

| source | as written | input that shows it | evidently intended | confidence | as-written member | corrected member |
|---|---|---|---|---|---|---|
| src/lib.rs:35-41 | the loop bound and the last-character test use `s.len()`, the length in UTF-8 bytes, while characters are fetched by character index with `s.chars().nth(i)` | `"é"` (one character, two bytes): `i = 0` passes both tests, `nth(1)` is `None` and `unwrap()` panics; every input with a non-ASCII character panics the same way | bound the cursor by the character count, so non-ASCII characters are copied through like any other | high; not executed | `TerminalColor.ConvertAsWritten` (exhibit: `ConvertProperties.MultiByteDiscrepancy`) | `TerminalColor.ConvertChars` |
