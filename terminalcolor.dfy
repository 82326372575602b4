/** The marker-to-ANSI conversion of src/lib.rs.

    A marker is a sentinel (`$` foreground, `#` background) followed by one
    of the codes `k r g y b m c w 0`, matched after ASCII lowercasing. Each
    marker becomes an SGR control sequence `ESC [ n m` (ECMA-48, section
    8.3.117); every other character is copied through.

    `Convert` is the reference definition, a left-to-right recursive scan.
    `ConvertAsWritten` is the source's `while` loop, byte-length guard
    included, proved to return `Convert(s)` on ASCII text and to panic on
    everything else. `ConvertChars` is the same loop bounded by the
    character count, proved to return `Convert(s)` on every string. */
module TerminalColor {
  import Decimal

  datatype Option<T> = None | Some(value: T)

  /** What one call of `convert` does: return a string, or panic in an
      `unwrap()` of a character lookup that found nothing. */
  datatype Outcome = Done(text: string) | Panicked

  /** The table `COLORS`: position k < 8 is colour offset k, position 8 is
      the reset code. */
  const Colors: seq<char> := ['k', 'r', 'g', 'y', 'b', 'm', 'c', 'w', '0']

  /** The control character ESC (0x1B). */
  const Esc: char := '\U{1B}'

  /** The literal `"\x1b[0m"` pushed for a reset marker. */
  const ResetSequence: string := [Esc, '[', '0', 'm']

  predicate IsSentinel(c: char) {
    c == '$' || c == '#'
  }

  predicate IsAsciiUpper(c: char) {
    'A' <= c <= 'Z'
  }

  predicate IsAsciiLower(c: char) {
    'a' <= c <= 'z'
  }

  /** Rust's `char::to_ascii_lowercase`. */
  function ToAsciiLower(c: char): char {
    if IsAsciiUpper(c) then (c as int + 32) as char else c
  }

  /** Rust's `char::to_ascii_uppercase`. */
  function ToAsciiUpper(c: char): char {
    if IsAsciiLower(c) then (c as int - 32) as char else c
  }

  /** `COLORS.contains(&code.to_ascii_lowercase())`. */
  predicate IsColorCode(code: char) {
    ToAsciiLower(code) in Colors
  }

  /** The two-character window `(lead, code)` is a marker. */
  predicate IsMarker(lead: char, code: char) {
    IsSentinel(lead) && IsColorCode(code)
  }

  predicate IsAscii(s: string) {
    forall k :: 0 <= k < |s| ==> s[k] as int < 128
  }

  /** `t.iter().position(|&y| y == x)`: the first index holding `x`. */
  function Position(t: seq<char>, x: char): (r: Option<nat>)
    ensures r.Some? <==> x in t
    ensures r.Some? ==> r.value < |t| && t[r.value] == x && x !in t[..r.value]
  {
    if t == [] then None
    else if t[0] == x then Some(0)
    else match Position(t[1..], x)
      case None => None
      case Some(k) => Some(k + 1)
  }

  /** The slot of a marker code in `COLORS`; the lookup cannot fail once
      the code is known to be a colour code. */
  function ColorIndex(code: char): (k: nat)
    requires IsColorCode(code)
    ensures k < |Colors| && Colors[k] == ToAsciiLower(code)
  {
    Position(Colors, ToAsciiLower(code)).value
  }

  /** The SGR parameter for a non-reset marker: 30 (foreground) or 40
      (background), plus 60 for an upper-case (bright) code, plus the
      colour's slot. */
  function SgrCode(lead: char, code: char): (n: nat)
    requires IsMarker(lead, code) && code != '0'
    ensures 30 <= n <= 37 || 40 <= n <= 47 || 90 <= n <= 97 || 100 <= n <= 107
    ensures (n < 40 || 90 <= n < 100) <==> lead == '$'
    ensures n >= 90 <==> IsAsciiUpper(code)
  {
    var base := match lead
      case '$' => 30
      case '#' => 40
      case _ => 30;
    base + (if IsAsciiUpper(code) then 60 else 0) + ColorIndex(code)
  }

  /** `format!("\x1b[{}m", n)`. */
  function Sgr(n: nat): string {
    [Esc, '['] + Decimal.Render(n) + ['m']
  }

  /** What replaces the marker `(lead, code)`: the reset sequence for `0`,
      the colour's SGR sequence otherwise. */
  function Escape(lead: char, code: char): (e: string)
    requires IsMarker(lead, code)
    ensures 4 <= |e| <= 6 && e[0] == Esc && e[|e| - 1] == 'm'
    ensures |e| == 4 <==> code == '0'
    ensures |e| == 6 <==> lead == '#' && IsAsciiUpper(code)
    ensures '$' !in e && '#' !in e
  {
    if code == '0' then ResetSequence
    else
      var n := SgrCode(lead, code);
      Decimal.RenderLength(n);
      Sgr(n)
  }

  /** The reference definition of `convert`: scan left to right; a marker
      at the cursor is replaced and both its characters are consumed,
      anything else is copied and the cursor moves by one. */
  function Convert(s: string): (r: string)
    ensures |r| >= |s|
    decreases |s|
  {
    if |s| == 0 then []
    else if |s| >= 2 && IsMarker(s[0], s[1]) then Escape(s[0], s[1]) + Convert(s[2..])
    else [s[0]] + Convert(s[1..])
  }

  /** The number of bytes a character takes in UTF-8. */
  function Utf8Width(c: char): nat {
    if c as int < 0x80 then 1
    else if c as int < 0x800 then 2
    else if c as int < 0x1_0000 then 3
    else 4
  }

  /** `s.len()`: the length of `s` in UTF-8 bytes. It equals the number of
      characters exactly when every character is ASCII. */
  function Utf8Len(s: string): (n: nat)
    ensures n >= |s|
    ensures n == |s| <==> IsAscii(s)
  {
    if s == [] then 0
    else
      assert forall k :: 1 <= k < |s| ==> s[1..][k - 1] == s[k];
      Utf8Width(s[0]) + Utf8Len(s[1..])
  }

  /** `s.chars().nth(i)`: advance the character iterator `i` times, then
      take the next character, if any. */
  function Nth(s: string, i: nat): (r: Option<char>)
    ensures r.Some? <==> i < |s|
    ensures r.Some? ==> r.value == s[i]
    decreases i
  {
    if s == [] then None
    else if i == 0 then Some(s[0])
    else Nth(s[1..], i - 1)
  }

  /** One step of the scan, taken at the cursor `i`. */
  lemma ConvertAt(s: string, i: nat)
    requires i < |s|
    ensures Convert(s[i..]) ==
      if i + 1 < |s| && IsMarker(s[i], s[i + 1]) then Escape(s[i], s[i + 1]) + Convert(s[i + 2..])
      else [s[i]] + Convert(s[i + 1..])
  {
    assert s[i..][1..] == s[i + 1..];
    if i + 1 < |s| {
      assert s[i..][2..] == s[i + 2..];
    }
  }

  /** Appending the chunk for the characters `s[i..j]` to a prefix of the
      output keeps it a prefix of `Convert(s)`. */
  lemma Advance(s: string, i: nat, j: nat, out: string, chunk: string)
    requires i <= j <= |s|
    requires out + Convert(s[i..]) == Convert(s)
    requires Convert(s[i..]) == chunk + Convert(s[j..])
    ensures (out + chunk) + Convert(s[j..]) == Convert(s)
  {
  }

  /** `convert` as written: the loop is bounded by the byte length
      `s.len()` while characters are fetched by character index, so on text
      with a multi-byte character an `unwrap()` meets `None`. */
  method ConvertAsWritten(s: string) returns (r: Outcome)
    ensures IsAscii(s) ==> r == Done(Convert(s))
    ensures !IsAscii(s) ==> r == Panicked
  {
    var len := Utf8Len(s);
    var out: string := [];
    var i: nat := 0;
    assert s[i..] == s;
    while i < len
      invariant i <= |s|
      invariant out + Convert(s[i..]) == Convert(s)
      decreases len - i
    {
      var c := Nth(s, i);
      if c.None? {
        assert len != |s|;
        return Panicked;
      }
      assert i < |s| && c.value == s[i];
      if i >= len - 1 {
        ConvertAt(s, i);
        Advance(s, i, i + 1, out, [c.value]);
        out := out + [c.value];
        assert i + 1 == |s| && len == |s|;
        break;
      }
      var colorCode := Nth(s, i + 1);
      if colorCode.None? {
        assert len != |s|;
        return Panicked;
      }
      assert colorCode.value == s[i + 1];
      ConvertAt(s, i);
      if (c.value != '$' && c.value != '#') || ToAsciiLower(colorCode.value) !in Colors {
        assert !IsMarker(s[i], s[i + 1]);
        Advance(s, i, i + 1, out, [c.value]);
        out := out + [c.value];
        i := i + 1;
        continue;
      }
      if colorCode.value == '0' {
        assert Escape(s[i], s[i + 1]) == ResetSequence;
        Advance(s, i, i + 2, out, ResetSequence);
        out := out + ResetSequence;
        i := i + 2;
        continue;
      }
      var colorIndex := Position(Colors, ToAsciiLower(colorCode.value)).value;
      var add: int := match c.value
        case '$' => 30
        case '#' => 40
        case _ => 30;
      add := add + if IsAsciiUpper(colorCode.value) then 60 else 0;
      assert add + colorIndex == SgrCode(c.value, colorCode.value);
      assert Escape(s[i], s[i + 1]) == Sgr(add + colorIndex);
      Advance(s, i, i + 2, out, Sgr(add + colorIndex));
      out := out + Sgr(add + colorIndex);
      i := i + 2;
    }
    r := Done(out);
  }

  /** The loop with its bound and last-character test taken on the
      character count: the same scan, total on every string. */
  method ConvertChars(s: string) returns (out: string)
    ensures out == Convert(s)
  {
    out := [];
    var i := 0;
    assert s[i..] == s;
    while i < |s|
      invariant i <= |s|
      invariant out + Convert(s[i..]) == Convert(s)
    {
      var c := s[i];
      ConvertAt(s, i);
      if i == |s| - 1 {
        Advance(s, i, i + 1, out, [c]);
        out := out + [c];
        break;
      }
      var colorCode := s[i + 1];
      if IsMarker(c, colorCode) {
        Advance(s, i, i + 2, out, Escape(c, colorCode));
        out := out + Escape(c, colorCode);
        i := i + 2;
      } else {
        Advance(s, i, i + 1, out, [c]);
        out := out + [c];
        i := i + 1;
      }
    }
  }
}
