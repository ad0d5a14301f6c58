/** The argument checks of `main` in spritesheet_to_gif.py and its
    `--bg-color` parse. */
module SheetArgs {
  import opened Wrappers
  import opened Pixels
  import opened Segmentation

  /** The command line after argparse: `inputExists` stands for
      `os.path.exists(args.input)`. */
  datatype Args = Args(
    inputExists: bool, cols: Option<int>, rows: Option<int>, autoDetect: bool,
    fps: int, loop: int, alphaThreshold: int, colorTolerance: int, bgColor: Option<string>)

  /** Why `main` returns 1, one constructor per check. */
  datatype ArgError =
    | MissingInput | NeedGrid | BadCols | BadRows | BadFps | BadLoop
    | BadAlphaThreshold | BadColorTolerance | BadBgColor

  /** The position of each check in `main`. */
  function Rank(e: ArgError): nat {
    match e
    case MissingInput => 0
    case NeedGrid => 1
    case BadCols => 2
    case BadRows => 3
    case BadFps => 4
    case BadLoop => 5
    case BadAlphaThreshold => 6
    case BadColorTolerance => 7
    case BadBgColor => 8
  }

  /** `--bg-color` was given as a non-empty string (an empty one is falsy
      and skipped). */
  predicate HasBgColor(a: Args) {
    a.bgColor.Some? && |a.bgColor.value| > 0
  }

  /** The condition under which check `e` rejects the arguments. */
  predicate Fails(a: Args, e: ArgError) {
    match e
    case MissingInput => !a.inputExists
    case NeedGrid => !a.autoDetect && (a.cols.None? || a.rows.None?)
    case BadCols => a.cols.Some? && a.cols.value <= 0
    case BadRows => a.rows.Some? && a.rows.value <= 0
    case BadFps => a.fps <= 0
    case BadLoop => a.loop < 0
    case BadAlphaThreshold => a.alphaThreshold < 0 || a.alphaThreshold > 100
    case BadColorTolerance => a.colorTolerance < 0 || a.colorTolerance > 255
    case BadBgColor => HasBgColor(a) && ParseBgColour(a.bgColor.value).None?
  }

  /** The outcome of the checks: the first failed check, or the parsed
      background colour. */
  datatype Checked = Rejected(err: ArgError) | Accepted(bg: Option<Rgb>)

  /** The checks of `main`, in order. The result names the first check that
      fails; when none fails, the background colour is the parsed
      `--bg-color`, or `None` when it was not given. */
  function CheckArgs(a: Args): (r: Checked)
    ensures r.Accepted? ==> forall e :: !Fails(a, e)
    ensures r.Rejected? ==> Fails(a, r.err) && forall e :: Rank(e) < Rank(r.err) ==> !Fails(a, e)
    ensures r.Accepted? ==> r.bg == (if HasBgColor(a) then ParseBgColour(a.bgColor.value) else None)
  {
    if !a.inputExists then Rejected(MissingInput)
    else if !a.autoDetect && (a.cols.None? || a.rows.None?) then Rejected(NeedGrid)
    else if a.cols.Some? && a.cols.value <= 0 then Rejected(BadCols)
    else if a.rows.Some? && a.rows.value <= 0 then Rejected(BadRows)
    else if a.fps <= 0 then Rejected(BadFps)
    else if a.loop < 0 then Rejected(BadLoop)
    else if a.alphaThreshold < 0 || a.alphaThreshold > 100 then Rejected(BadAlphaThreshold)
    else if a.colorTolerance < 0 || a.colorTolerance > 255 then Rejected(BadColorTolerance)
    else if HasBgColor(a) then
      var bg := ParseBgColour(a.bgColor.value);
      if bg.None? then Rejected(BadBgColor) else Accepted(bg)
    else Accepted(None)
  }

  /** `CheckArgs` checks the colour with the intended parse, so a signed
      pair that the parse as written lets through is rejected here. */
  lemma CheckArgsRejectsSignedPair()
    ensures var a := Args(true, Some(1), Some(1), false, 8, 0, 10, 80, Some("#-f0000"));
      ParseBgColourAsWritten(a.bgColor.value).Some? && CheckArgs(a) == Rejected(BadBgColor)
  {
    AsWrittenAcceptsSignedPair();
    assert !IsHexDigit("-f0000"[0]);
    assert LStrip("#-f0000", '#') == LStrip("-f0000", '#') == "-f0000";
  }

  /** Accepted arguments give the later steps what they divide by and
      range over: a positive grid whenever one is given (and always without
      auto-detection), a positive frame rate, and an alpha percentage and a
      tolerance in range. */
  lemma AcceptedArgsUsable(a: Args)
    requires CheckArgs(a).Accepted?
    ensures !a.autoDetect ==> a.cols.Some? && a.rows.Some?
    ensures a.cols.Some? ==> a.cols.value >= 1
    ensures a.rows.Some? ==> a.rows.value >= 1
    ensures a.fps >= 1 && a.loop >= 0 && 0 <= a.alphaThreshold <= 100 && 0 <= a.colorTolerance <= 255
  {
    assert !Fails(a, NeedGrid) && !Fails(a, BadCols) && !Fails(a, BadRows) && !Fails(a, BadFps);
    assert !Fails(a, BadLoop) && !Fails(a, BadAlphaThreshold) && !Fails(a, BadColorTolerance);
  }

  // ----- `--bg-color` -----

  /** `s.lstrip(c)`: `s` without its leading run of `c`. */
  function LStrip(s: string, c: char): (r: string)
    ensures |r| <= |s| && r == s[|s| - |r|..]
    ensures |r| > 0 ==> r[0] != c
    ensures forall i :: 0 <= i < |s| - |r| ==> s[i] == c
  {
    if |s| > 0 && s[0] == c then LStrip(s[1..], c) else s
  }

  predicate IsHexDigit(ch: char) {
    '0' <= ch <= '9' || 'a' <= ch <= 'f' || 'A' <= ch <= 'F'
  }

  /** The value of a hex digit. */
  function DigitValue(ch: char): (v: nat)
    requires IsHexDigit(ch)
    ensures v < 16
  {
    if '0' <= ch <= '9' then ch as int - '0' as int
    else if 'a' <= ch <= 'f' then ch as int - 'a' as int + 10
    else ch as int - 'A' as int + 10
  }

  /** The ASCII characters Python's `int()` strips as whitespace: tab, line
      feed, vertical tab, form feed, carriage return and space. */
  predicate IsPySpace(ch: char) {
    9 <= ch as int <= 13 || ch as int == 32
  }

  /** Python's `int(s, 16)` on a two-character ASCII string: two hex
      digits, or one digit after a sign or next to whitespace; anything
      else raises `ValueError` (`None`). */
  function PyIntHex2(s: string): (r: Option<int>)
    requires |s| == 2
    ensures r.Some? <==>
      (IsHexDigit(s[1]) && (IsHexDigit(s[0]) || s[0] == '+' || s[0] == '-' || IsPySpace(s[0])))
      || (IsHexDigit(s[0]) && IsPySpace(s[1]))
    ensures r.Some? ==> -15 <= r.value <= 255
    ensures r.Some? && r.value < 0 ==> s[0] == '-'
    ensures IsHexDigit(s[0]) && IsHexDigit(s[1]) ==> r == Some(16 * DigitValue(s[0]) + DigitValue(s[1]))
  {
    if IsHexDigit(s[0]) && IsHexDigit(s[1]) then Some(16 * DigitValue(s[0]) + DigitValue(s[1]) as int)
    else if s[0] == '+' && IsHexDigit(s[1]) then Some(DigitValue(s[1]) as int)
    else if s[0] == '-' && IsHexDigit(s[1]) then Some(0 - DigitValue(s[1]) as int)
    else if IsPySpace(s[0]) && IsHexDigit(s[1]) then Some(DigitValue(s[1]) as int)
    else if IsHexDigit(s[0]) && IsPySpace(s[1]) then Some(DigitValue(s[0]) as int)
    else None
  }

  /** The `--bg-color` parse as written: strip leading `#`, require six
      characters, and read each pair with `int(pair, 16)`. */
  function ParseBgColourAsWritten(s: string): (r: Option<(int, int, int)>)
    ensures r.Some? ==> |LStrip(s, '#')| == 6
    ensures r.Some? ==> -15 <= r.value.0 <= 255 && -15 <= r.value.1 <= 255 && -15 <= r.value.2 <= 255
    ensures |LStrip(s, '#')| == 6 ==>
      (r.Some? <==> PyIntHex2(LStrip(s, '#')[0..2]).Some? && PyIntHex2(LStrip(s, '#')[2..4]).Some?
                     && PyIntHex2(LStrip(s, '#')[4..6]).Some?)
  {
    var h := LStrip(s, '#');
    if |h| != 6 then None
    else
      var r, g, b := PyIntHex2(h[0..2]), PyIntHex2(h[2..4]), PyIntHex2(h[4..6]);
      if r.None? || g.None? || b.None? then None else Some((r.value, g.value, b.value))
  }

  /** The parse as written accepts a sign inside a pair: `#-f0000` gives a
      red channel of -15, which is no 8-bit colour. */
  lemma AsWrittenAcceptsSignedPair()
    ensures ParseBgColourAsWritten("#-f0000") == Some((-15, 0, 0))
  {
    var h := "-f0000";
    assert LStrip("#-f0000", '#') == LStrip(h, '#') == h;
    assert PyIntHex2(h[0..2]) == Some(-15) by {
      assert h[0..2] == ['-', 'f'];
    }
    assert PyIntHex2(h[2..4]) == Some(0) by {
      assert h[2..4] == ['0', '0'];
    }
    assert h[4..6] == ['0', '0'];
  }

  /** Two hex digits as one channel. */
  function HexPair(s: string): (v: Channel)
    requires |s| == 2 && IsHexDigit(s[0]) && IsHexDigit(s[1])
  {
    16 * DigitValue(s[0]) + DigitValue(s[1])
  }

  /** Six hex digits. */
  predicate IsHex6(h: string) {
    |h| == 6 && forall i :: 0 <= i < 6 ==> IsHexDigit(h[i])
  }

  /** The `--bg-color` parse as intended: after the leading `#`s, exactly six
      hex digits, read two by two as red, green and blue. */
  function ParseBgColour(s: string): (r: Option<Rgb>)
    ensures r.Some? <==> IsHex6(LStrip(s, '#'))
  {
    var h := LStrip(s, '#');
    if !IsHex6(h) then None else Some(RgbOfHex6(h))
  }

  /** Six hex digits read two by two as red, green and blue. */
  function RgbOfHex6(h: string): Rgb
    requires IsHex6(h)
  {
    assert IsHexDigit(h[0]) && IsHexDigit(h[1]) && IsHexDigit(h[2]);
    assert IsHexDigit(h[3]) && IsHexDigit(h[4]) && IsHexDigit(h[5]);
    Rgb(HexPair(h[0..2]), HexPair(h[2..4]), HexPair(h[4..6]))
  }

  /** On six hex digits the intended parse and the parse as written agree:
      the correction only rejects what the code wrongly accepted. */
  lemma ParseAgreesOnHex(s: string)
    requires IsHex6(LStrip(s, '#'))
    ensures var c := ParseBgColour(s).value;
      ParseBgColourAsWritten(s) == Some((c.r, c.g, c.b))
  {
    var h := LStrip(s, '#');
    assert IsHexDigit(h[0]) && IsHexDigit(h[1]) && IsHexDigit(h[2]);
    assert IsHexDigit(h[3]) && IsHexDigit(h[4]) && IsHexDigit(h[5]);
  }

  /** The lower-case hex digit of `v`. */
  function HexDigit(v: nat): (ch: char)
    requires v < 16
    ensures IsHexDigit(ch) && DigitValue(ch) == v
  {
    if v < 10 then ('0' as int + v) as char else ('a' as int + v - 10) as char
  }

  /** A channel as two lower-case hex digits. */
  function HexOf(v: Channel): (s: string)
    ensures |s| == 2 && IsHexDigit(s[0]) && IsHexDigit(s[1])
  {
    [HexDigit(v / 16), HexDigit(v % 16)]
  }

  /** `#rrggbb` for a colour. */
  function FormatRgb(c: Rgb): string {
    "#" + HexOf(c.r) + HexOf(c.g) + HexOf(c.b)
  }

  /** Formatting then parsing gives the colour back. */
  lemma ParseFormatRoundTrip(c: Rgb)
    ensures ParseBgColour(FormatRgb(c)) == Some(c)
  {
    var h := HexOf(c.r) + HexOf(c.g) + HexOf(c.b);
    assert FormatRgb(c) == "#" + h;
    assert LStrip(FormatRgb(c), '#') == h by {
      assert FormatRgb(c)[0] == '#' && FormatRgb(c)[1..] == h;
      assert h[0] != '#';
    }
    assert h[0..2] == HexOf(c.r) && h[2..4] == HexOf(c.g) && h[4..6] == HexOf(c.b);
    assert IsHex6(h);
    HexOfRoundTrip(c.r);
    HexOfRoundTrip(c.g);
    HexOfRoundTrip(c.b);
  }

  /** A channel written as two digits and read back is itself. */
  lemma HexOfRoundTrip(v: Channel)
    ensures HexPair(HexOf(v)) == v
  {
  }

  /** A character folded to lower case. */
  function Lower(ch: char): char {
    if 'A' <= ch <= 'F' then (ch as int - 'A' as int + 'a' as int) as char else ch
  }

  /** Parsing then formatting gives back the digits, in lower case. */
  lemma FormatParseRoundTrip(s: string)
    requires ParseBgColour(s).Some?
    ensures FormatRgb(ParseBgColour(s).value) == ['#'] + LowerAll(LStrip(s, '#'))
  {
    var h := LStrip(s, '#');
    var c := ParseBgColour(s).value;
    PairRoundTrip(h[0..2]);
    PairRoundTrip(h[2..4]);
    PairRoundTrip(h[4..6]);
    assert h == h[0..2] + h[2..4] + h[4..6];
    LowerAllAppend(h[0..2] + h[2..4], h[4..6]);
    LowerAllAppend(h[0..2], h[2..4]);
  }

  /** A string with its hex letters in lower case. */
  function LowerAll(s: string): (r: string)
    ensures |r| == |s|
  {
    if |s| == 0 then [] else [Lower(s[0])] + LowerAll(s[1..])
  }

  lemma {:induction false} LowerAllAppend(a: string, b: string)
    ensures LowerAll(a + b) == LowerAll(a) + LowerAll(b)
  {
    if |a| > 0 {
      assert (a + b)[1..] == a[1..] + b;
      LowerAllAppend(a[1..], b);
    } else {
      assert a + b == b;
    }
  }

  /** Two hex digits read as a channel and written back. */
  lemma PairRoundTrip(p: string)
    requires |p| == 2 && IsHexDigit(p[0]) && IsHexDigit(p[1])
    ensures HexOf(HexPair(p)) == LowerAll(p)
  {
    var v := HexPair(p);
    assert v / 16 == DigitValue(p[0]) && v % 16 == DigitValue(p[1]);
    DigitRoundTrip(p[0]);
    DigitRoundTrip(p[1]);
    assert LowerAll(p) == [Lower(p[0]), Lower(p[1])];
  }

  /** A hex digit read and written back is its lower-case form. */
  lemma DigitRoundTrip(ch: char)
    requires IsHexDigit(ch)
    ensures HexDigit(DigitValue(ch)) == Lower(ch)
  {
  }
}
