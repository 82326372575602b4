/** Properties of the marker conversion: what each marker turns into, that
    the replacement can be decoded back to the marker, that the scan works
    left to right with no lookbehind, and that its output holds no marker,
    so converting twice changes nothing. */
module ConvertProperties {
  import Decimal
  import opened TerminalColor

  // ---------------------------------------------------------------------
  // The escape sequences can be read back.
  // ---------------------------------------------------------------------

  /** The SGR parameter of a sequence `ESC [ digits m`, if it is one. */
  function ParseSgr(e: string): Option<nat> {
    if |e| >= 4 && e[0] == Esc && e[1] == '[' && e[|e| - 1] == 'm'
       && Decimal.AllDigits(e[2..|e| - 1])
    then Some(Decimal.Value(e[2..|e| - 1]))
    else None
  }

  /** Every sequence the conversion writes for a colour is read back as
      its parameter. */
  lemma SgrParsesBack(n: nat)
    ensures ParseSgr(Sgr(n)) == Some(n)
  {
    var e := Sgr(n);
    assert e[2..|e| - 1] == Decimal.Render(n);
    Decimal.ValueOfRender(n);
  }

  /** The literal reset sequence is the SGR sequence with parameter 0. */
  lemma ResetIsSgrZero()
    ensures ResetSequence == Sgr(0)
    ensures ParseSgr(ResetSequence) == Some(0)
  {
    SgrParsesBack(0);
  }

  /** The marker a colour parameter came from: the inverse of SgrCode. */
  function MarkerOf(n: nat): Option<(char, char)> {
    var base := n / 10 * 10;
    var k := n % 10;
    if k >= 8 || !(base == 30 || base == 40 || base == 90 || base == 100) then None
    else
      var lead := if base == 30 || base == 90 then '$' else '#';
      var code := if base >= 90 then ToAsciiUpper(Colors[k]) else Colors[k];
      Some((lead, code))
  }

  /** ASCII lowercasing leaves no upper-case letter, maps each upper-case
      letter to the lower-case letter that upper-casing takes back to it,
      and leaves every other character alone. */
  lemma CaseFolding(c: char)
    ensures !IsAsciiUpper(ToAsciiLower(c))
    ensures IsAsciiUpper(c) ==> IsAsciiLower(ToAsciiLower(c)) && ToAsciiUpper(ToAsciiLower(c)) == c
    ensures !IsAsciiUpper(c) ==> ToAsciiLower(c) == c
  {
  }

  /** The membership test accepts exactly the nine codes of the table in
      either case. */
  lemma ColorCodes(code: char)
    ensures IsColorCode(code) <==> code in "krgybmcw0KRGYBMCW"
  {
  }

  /** No element occurs twice in `t`. */
  predicate Distinct(t: seq<char>) {
    forall a, b :: 0 <= a < b < |t| ==> t[a] != t[b]
  }

  /** No code appears twice in the table. */
  lemma ColorsDistinct()
    ensures Distinct(Colors)
  {
    var slot := map['k' := 0, 'r' := 1, 'g' := 2, 'y' := 3, 'b' := 4, 'm' := 5, 'c' := 6, 'w' := 7, '0' := 8];
    forall a, b | 0 <= a < b < |Colors| ensures Colors[a] != Colors[b] {
      assert Colors[a] in slot && slot[Colors[a]] == a;
      assert Colors[b] in slot && slot[Colors[b]] == b;
    }
  }

  /** In a table without repeats, looking an element up gives back its own
      index. */
  lemma PositionOfDistinct(t: seq<char>, k: nat)
    requires Distinct(t) && k < |t|
    ensures Position(t, t[k]) == Some(k)
  {
  }

  /** Looking a code of the table up gives back its own slot. */
  lemma SlotOfColor(code: char, k: nat)
    requires k < |Colors| && Colors[k] == ToAsciiLower(code)
    ensures IsColorCode(code) && ColorIndex(code) == k
  {
    ColorsDistinct();
    PositionOfDistinct(Colors, k);
  }

  /** Splitting a parameter into its tens (the base) and its unit (the slot). */
  lemma TensAndUnits(base: nat, k: nat)
    requires base == 30 || base == 40 || base == 90 || base == 100
    requires k < 10
    ensures (base + k) / 10 * 10 == base && (base + k) % 10 == k
  {
    var q := base / 10;
    assert base == 10 * q;
    assert base + k == 10 * q + k;
  }

  /** Each non-reset marker can be recovered from its SGR parameter, so two
      different markers never produce the same sequence. */
  lemma MarkerOfSgrCode(lead: char, code: char)
    requires IsMarker(lead, code) && code != '0'
    ensures MarkerOf(SgrCode(lead, code)) == Some((lead, code))
  {
    var n := SgrCode(lead, code);
    var k := ColorIndex(code);
    assert k < 8;
    var base := (if lead == '#' then 40 else 30) + (if IsAsciiUpper(code) then 60 else 0);
    assert n == base + k;
    TensAndUnits(base, k);
    if IsAsciiUpper(code) {
      CaseFolding(code);
    }
  }

  /** Every parameter in the four colour ranges is produced by exactly the
      marker MarkerOf names: the 32 colour markers and the 32 parameters
      are in one-to-one correspondence. */
  lemma SgrCodeOfMarker(n: nat)
    requires MarkerOf(n).Some?
    ensures IsMarker(MarkerOf(n).value.0, MarkerOf(n).value.1)
    ensures MarkerOf(n).value.1 != '0'
    ensures SgrCode(MarkerOf(n).value.0, MarkerOf(n).value.1) == n
  {
    var k := n % 10;
    var lower := Colors[k];
    assert IsAsciiLower(lower) && ToAsciiLower(lower) == lower;
    assert ToAsciiLower(ToAsciiUpper(lower)) == lower;
    var code := MarkerOf(n).value.1;
    assert ToAsciiLower(code) == lower;
    SlotOfColor(code, k);
  }

  // ---------------------------------------------------------------------
  // One step of the scan.
  // ---------------------------------------------------------------------

  /** A sentinel not followed by a colour code is copied alone; the next
      character is looked at again, as a possible sentinel itself. */
  lemma LoneSentinel(lead: char, t: string)
    requires IsSentinel(lead)
    requires t == [] || !IsColorCode(t[0])
    ensures Convert([lead] + t) == [lead] + Convert(t)
  {
    assert ([lead] + t)[1..] == t;
  }

  /** A reset marker writes `ESC [ 0 m` whichever sentinel leads it, and
      consumes both characters. */
  lemma ResetMarker(lead: char, t: string)
    requires IsSentinel(lead)
    ensures Convert([lead, '0'] + t) == ResetSequence + Convert(t)
  {
    assert ([lead, '0'] + t)[2..] == t;
    assert IsColorCode('0') by { assert Colors[8] == '0'; }
  }

  /** A colour marker writes `ESC [ n m` for its SGR parameter and
      consumes both characters. */
  lemma ColorMarker(lead: char, code: char, t: string)
    requires IsMarker(lead, code) && code != '0'
    ensures Convert([lead, code] + t) == Sgr(SgrCode(lead, code)) + Convert(t)
  {
    assert ([lead, code] + t)[2..] == t;
  }

  // ---------------------------------------------------------------------
  // Left to right, no lookbehind.
  // ---------------------------------------------------------------------

  /** The step shared by both branches of ConvertAppend: when the whole
      and the part open with the same chunk, and the rest of the whole
      splits as the rest of the part followed by a tail, so does the whole. */
  lemma Regroup(whole: string, part: string, chunk: string, restWhole: string, restPart: string, tail: string)
    requires whole == chunk + restWhole && part == chunk + restPart
    requires restWhole == restPart + tail
    ensures whole == part + tail
  {
  }

  /** Converting a concatenation converts the parts, provided no marker
      straddles the seam: the scan never looks back, and the last
      character of `s` is only read as a lead when nothing follows it. */
  lemma {:induction false} ConvertAppend(s: string, t: string)
    requires !(|s| > 0 && |t| > 0 && IsMarker(s[|s| - 1], t[0]))
    ensures Convert(s + t) == Convert(s) + Convert(t)
    decreases |s|
  {
    if s == [] {
      assert s + t == t;
    } else {
      var st := s + t;
      var j := if |s| >= 2 && IsMarker(s[0], s[1]) then 2 else 1;
      assert st[0] == s[0] && (|s| >= 2 ==> st[1] == s[1]);
      assert st[j..] == s[j..] + t;
      var chunk := if j == 2 then Escape(s[0], s[1]) else [s[0]];
      assert Convert(st) == chunk + Convert(st[j..]);
      assert Convert(s) == chunk + Convert(s[j..]);
      ConvertAppend(s[j..], t);
      Regroup(Convert(st), Convert(s), chunk, Convert(st[j..]), Convert(s[j..]), Convert(t));
    }
  }

  /** A single character, `$` and `#` included, is copied unchanged. */
  lemma SingleCharacter(c: char)
    ensures Convert([c]) == [c]
  {
  }

  /** A sentinel at the very end is never a marker lead: it survives. */
  lemma TrailingSentinel(s: string, c: char)
    requires IsSentinel(c)
    ensures Convert(s + [c]) == Convert(s) + [c]
  {
    assert !IsColorCode(c);
    ConvertAppend(s, [c]);
  }

  // ---------------------------------------------------------------------
  // The output holds no marker; converting twice changes nothing.
  // ---------------------------------------------------------------------

  /** No sentinel in `t` is immediately followed by a colour code. */
  predicate NoMarker(t: string) {
    forall k :: 0 <= k < |t| - 1 ==> !IsMarker(t[k], t[k + 1])
  }

  /** Two marker-free texts stay marker-free when joined, unless the seam
      itself forms a marker. */
  lemma NoMarkerConcat(a: string, b: string)
    requires NoMarker(a) && NoMarker(b)
    requires !(|a| > 0 && |b| > 0 && IsMarker(a[|a| - 1], b[0]))
    ensures NoMarker(a + b)
  {
    var ab := a + b;
    forall k | 0 <= k < |ab| - 1
      ensures !IsMarker(ab[k], ab[k + 1])
    {
      if k < |a| - 1 {
        assert ab[k] == a[k] && ab[k + 1] == a[k + 1];
      } else if k == |a| - 1 {
        assert ab[k] == a[|a| - 1] && ab[k + 1] == b[0];
      } else {
        assert ab[k] == b[k - |a|] && ab[k + 1] == b[k - |a| + 1];
      }
    }
  }

  /** The control character that opens every escape is not a colour code,
      so an escape never completes a marker begun before it. */
  lemma EscIsNotColorCode()
    ensures !IsColorCode(Esc)
  {
  }

  /** The first output character: ESC when a marker opens the input, the
      first input character otherwise. */
  lemma ConvertFirst(s: string)
    requires |s| > 0
    ensures |Convert(s)| > 0
    ensures Convert(s)[0] == if |s| >= 2 && IsMarker(s[0], s[1]) then Esc else s[0]
  {
  }

  /** No marker survives conversion: every sentinel left in the output is
      followed by a character that is not a colour code. */
  lemma {:induction false} OutputHasNoMarker(s: string)
    ensures NoMarker(Convert(s))
    decreases |s|
  {
    if s == [] {
    } else if |s| >= 2 && IsMarker(s[0], s[1]) {
      var e := Escape(s[0], s[1]);
      OutputHasNoMarker(s[2..]);
      assert NoMarker(e) by {
        forall k | 0 <= k < |e| - 1 ensures !IsSentinel(e[k]) {
          assert e[k] in e;
        }
      }
      NoMarkerConcat(e, Convert(s[2..]));
    } else {
      OutputHasNoMarker(s[1..]);
      var rest := Convert(s[1..]);
      if |rest| > 0 && IsSentinel(s[0]) {
        ConvertFirst(s[1..]);
        EscIsNotColorCode();
        assert !IsColorCode(rest[0]);
      }
      NoMarkerConcat([s[0]], rest);
    }
  }

  /** Text that holds no marker is returned unchanged. */
  lemma {:induction false} NoMarkerUnchanged(t: string)
    requires NoMarker(t)
    ensures Convert(t) == t
    decreases |t|
  {
    if t != [] {
      assert NoMarker(t[1..]) by {
        forall k | 0 <= k < |t[1..]| - 1 ensures !IsMarker(t[1..][k], t[1..][k + 1]) {
          assert t[1..][k] == t[k + 1] && t[1..][k + 1] == t[k + 2];
        }
      }
      NoMarkerUnchanged(t[1..]);
    }
  }

  /** Text without any `$` or `#` is returned unchanged; so is the empty
      string. */
  lemma NoSentinelUnchanged(t: string)
    requires '$' !in t && '#' !in t
    ensures Convert(t) == t
  {
    assert NoMarker(t) by {
      forall k | 0 <= k < |t| - 1 ensures !IsSentinel(t[k]) {
        assert t[k] in t;
      }
    }
    NoMarkerUnchanged(t);
  }

  /** Converting an already converted text changes nothing. */
  lemma ConvertIdempotent(s: string)
    ensures Convert(Convert(s)) == Convert(s)
  {
    OutputHasNoMarker(s);
    NoMarkerUnchanged(Convert(s));
  }

  // ---------------------------------------------------------------------
  // ASCII text stays ASCII, so the loop as written can run on its own output.
  // ---------------------------------------------------------------------

  /** Joining two ASCII texts gives ASCII text. */
  lemma AsciiConcat(a: string, b: string)
    requires IsAscii(a) && IsAscii(b)
    ensures IsAscii(a + b)
  {
    forall k | 0 <= k < |a + b| ensures (a + b)[k] as int < 128 {
      if k >= |a| {
        assert (a + b)[k] == b[k - |a|];
      }
    }
  }

  /** Decimal digits are ASCII. */
  lemma DigitsAreAscii(d: string)
    requires Decimal.AllDigits(d)
    ensures IsAscii(d)
  {
    forall k | 0 <= k < |d| ensures d[k] as int < 128 {
      assert Decimal.IsDigit(d[k]);
    }
  }

  /** Every replacement of a marker is ASCII: ESC, `[`, decimal digits
      and `m`. */
  lemma EscapeIsAscii(lead: char, code: char)
    requires IsMarker(lead, code)
    ensures IsAscii(Escape(lead, code))
  {
    if code != '0' {
      var d := Decimal.Render(SgrCode(lead, code));
      DigitsAreAscii(d);
      AsciiConcat([Esc, '['], d);
      AsciiConcat([Esc, '['] + d, ['m']);
    }
  }

  /** A suffix of ASCII text is ASCII. */
  lemma AsciiSuffix(s: string, i: nat)
    requires IsAscii(s) && i <= |s|
    ensures IsAscii(s[i..])
  {
    forall k | 0 <= k < |s[i..]| ensures s[i..][k] as int < 128 {
      assert s[i..][k] == s[i + k];
    }
  }

  /** Converting ASCII text gives ASCII text. */
  lemma {:induction false} ConvertKeepsAscii(s: string)
    requires IsAscii(s)
    ensures IsAscii(Convert(s))
    decreases |s|
  {
    if s == [] {
    } else if |s| >= 2 && IsMarker(s[0], s[1]) {
      AsciiSuffix(s, 2);
      ConvertKeepsAscii(s[2..]);
      EscapeIsAscii(s[0], s[1]);
      AsciiConcat(Escape(s[0], s[1]), Convert(s[2..]));
    } else {
      AsciiSuffix(s, 1);
      ConvertKeepsAscii(s[1..]);
      AsciiConcat([s[0]], Convert(s[1..]));
    }
  }

  /** `convert` as written, run a second time on its own result: on ASCII
      text the first run does not panic, and the second returns the same
      text; on other text the first run panics. */
  method ConvertTwiceAsWritten(s: string) returns (first: Outcome, second: Outcome)
    ensures IsAscii(s) ==> first == Done(Convert(s)) && second == first
    ensures !IsAscii(s) ==> first == Panicked
  {
    first := ConvertAsWritten(s);
    if first.Done? {
      ConvertKeepsAscii(s);
      ConvertIdempotent(s);
      second := ConvertAsWritten(first.text);
    } else {
      second := first;
    }
  }

  // ---------------------------------------------------------------------
  // Worked examples.
  // ---------------------------------------------------------------------

  /** A foreground colour. */
  lemma ForegroundExample()
    ensures Convert("$r") == "\U{1B}[31m"
  {
    calc {
      Convert("$r");
      == { assert "$r" == ['$', 'r'] + ""; ColorMarker('$', 'r', ""); }
      Sgr(SgrCode('$', 'r')) + Convert("");
      ==
      Sgr(SgrCode('$', 'r'));
      == { SlotOfColor('r', 1); }
      Sgr(31);
      ==
      "\U{1B}[31m";
    }
  }

  /** The bright variant of a foreground colour adds 60. */
  lemma BrightExample()
    ensures Convert("$R") == "\U{1B}[91m"
  {
    calc {
      Convert("$R");
      == { assert "$R" == ['$', 'R'] + ""; ColorMarker('$', 'R', ""); }
      Sgr(SgrCode('$', 'R')) + Convert("");
      ==
      Sgr(SgrCode('$', 'R'));
      == { SlotOfColor('R', 1); }
      Sgr(91);
      ==
      "\U{1B}[91m";
    }
  }

  /** A background colour starts from 40. */
  lemma BackgroundExample()
    ensures Convert("#b") == "\U{1B}[44m"
  {
    calc {
      Convert("#b");
      == { assert "#b" == ['#', 'b'] + ""; ColorMarker('#', 'b', ""); }
      Sgr(SgrCode('#', 'b')) + Convert("");
      ==
      Sgr(SgrCode('#', 'b'));
      == { SlotOfColor('b', 4); }
      Sgr(44);
      ==
      "\U{1B}[44m";
    }
  }

  /** Both sentinels reset alike. */
  lemma ResetExamples()
    ensures Convert("$0") == "\U{1B}[0m" && Convert("#0") == "\U{1B}[0m"
  {
    ResetMarker('$', "");
    ResetMarker('#', "");
  }

  /** A sentinel before a character that is not a colour code is copied,
      and that character is examined again as a possible lead. */
  lemma NonMarkerExamples()
    ensures Convert("") == ""
    ensures Convert("$x") == "$x"
    ensures Convert("$$r") == "$\U{1B}[31m"
  {
    assert !IsColorCode('x') && !IsColorCode('$');
    LoneSentinel('$', "x");
    SingleCharacter('x');
    ForegroundExample();
    LoneSentinel('$', "$r");
  }

  /** A bright foreground blue. */
  lemma BrightBlueExample()
    ensures Convert("$B") == "\U{1B}[94m"
  {
    calc {
      Convert("$B");
      == { assert "$B" == ['$', 'B'] + ""; ColorMarker('$', 'B', ""); }
      Sgr(SgrCode('$', 'B')) + Convert("");
      ==
      Sgr(SgrCode('$', 'B'));
      == { SlotOfColor('B', 4); }
      Sgr(94);
      ==
      "\U{1B}[94m";
    }
  }

  /** Plain text is copied. */
  lemma PlainTextExample()
    ensures Convert("Hello, ") == "Hello, " && Convert("world!") == "world!"
  {
    NoSentinelUnchanged("Hello, ");
    NoSentinelUnchanged("world!");
  }

  /** The example of the documentation of `convert`, `"$rHello, $Bworld!"`,
      as the concatenation of its markers and its plain text. */
  lemma DocumentationExample()
    ensures Convert("$r" + "Hello, " + "$B" + "world!")
         == "\U{1B}[31m" + "Hello, " + "\U{1B}[94m" + "world!"
  {
    ForegroundExample();
    BrightBlueExample();
    PlainTextExample();
    DocumentationPieces("$r", "Hello, ", "$B", "world!");
  }

  /** Four pieces whose seams hold no marker convert piece by piece. */
  lemma DocumentationPieces(a: string, b: string, c: string, d: string)
    requires |a| > 0 && |b| > 0 && |c| > 0
    requires !IsMarker(a[|a| - 1], b[0]) && !IsSentinel(b[|b| - 1]) && !IsSentinel(c[|c| - 1])
    ensures Convert(a + b + c + d) == Convert(a) + Convert(b) + Convert(c) + Convert(d)
  {
    ConvertAppend(a, b);
    assert (a + b)[|a + b| - 1] == b[|b| - 1];
    ConvertAppend(a + b, c);
    assert (a + b + c)[|a + b + c| - 1] == c[|c| - 1];
    ConvertAppend(a + b + c, d);
  }

  // ---------------------------------------------------------------------
  // Multi-byte text.
  // ---------------------------------------------------------------------

  /** On `"é"` (one character, two bytes in UTF-8) the loop as written
      asks for a second character that does not exist and panics; the loop
      bounded by the character count copies the character through. */
  method MultiByteDiscrepancy() returns (asWritten: Outcome, corrected: string)
    ensures asWritten == Panicked
    ensures corrected == "é"
  {
    assert "é"[0] as int == 0xE9;
    asWritten := ConvertAsWritten("é");
    SingleCharacter('é');
    assert "é" == ['é'];
    corrected := ConvertChars("é");
  }
}
