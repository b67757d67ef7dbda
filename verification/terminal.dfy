/** The installer's terminal output: ECMA-48 control sequences for colour
    (SGR, section 8.3.117), cursor up (CUU, 8.3.22), erase in line
    (EL, 8.3.41) and cursor to column 1 (CHA, 8.3.9), and the status-line
    prefix that `print_` puts in front of every message. */
module Terminal {
  import opened Wrappers
  import opened Strings
  import opened Decimal

  const ESC: char := '\U{1B}'
  /** Control Sequence Introducer, `ESC [`. */
  const CSI: string := [ESC, '[']
  /** Cursor up one line. */
  const CUU: string := CSI + "A"
  /** Cursor to the first column. */
  const CHA: string := CSI + "G"
  /** Erase from the cursor to the end of the line. */
  const EL: string := CSI + "K"

  /** The eight colours of class `C`. */
  const BLK: int := 0
  const RED: int := 1
  const GRN: int := 2
  const YEL: int := 3
  const BLU: int := 4
  const MAG: int := 5
  const CYA: int := 6
  const WHT: int := 7

  /** The SGR parameter that selects foreground colour `fg`: 30-37, or 90-97 when bright. */
  function FgCode(fg: int, bright: bool): (code: int)
    ensures BLK <= fg <= WHT && !bright ==> 30 <= code <= 37
    ensures BLK <= fg <= WHT && bright ==> 90 <= code <= 97
    ensures !bright ==> code == fg + 30
    ensures bright ==> code == fg + 90
  {
    fg + (if bright then 90 else 30)
  }

  /** The SGR parameter that selects background colour `bg`: 40-47, or 100-107 when bright. */
  function BgCode(bg: int, bright: bool): (code: int)
    ensures BLK <= bg <= WHT && !bright ==> 40 <= code <= 47
    ensures BLK <= bg <= WHT && bright ==> 100 <= code <= 107
    ensures !bright ==> code == bg + 40
    ensures bright ==> code == bg + 100
  {
    bg + (if bright then 100 else 40)
  }

  /** The parameters `c` collects in its list `l`: the foreground code if
      a foreground is given, then the background code if a background is given. */
  function SgrCodes(fg: Option<int>, bg: Option<int>, fgBright: bool, bgBright: bool): (codes: seq<int>)
    ensures |codes| == (if fg.Some? then 1 else 0) + (if bg.Some? then 1 else 0)
    ensures fg.Some? ==> codes[0] == FgCode(fg.value, fgBright)
    ensures bg.Some? ==> codes[|codes| - 1] == BgCode(bg.value, bgBright)
  {
    (if fg.Some? then [FgCode(fg.value, fgBright)] else [])
    + (if bg.Some? then [BgCode(bg.value, bgBright)] else [])
  }

  /** `str` applied to each parameter. */
  function Texts(codes: seq<int>): (texts: seq<string>)
    ensures |texts| == |codes|
    ensures forall i :: 0 <= i < |texts| ==> ';' !in texts[i]
  {
    if codes == [] then [] else [IntToString(codes[0])] + Texts(codes[1..])
  }

  /** `c(fg, bg, fg_bright, bg_bright)`: one SGR control sequence. */
  function Sgr(fg: Option<int>, bg: Option<int>, fgBright: bool, bgBright: bool): (s: string)
    ensures |s| >= 3 && s[..2] == CSI && s[|s| - 1] == 'm'
  {
    CSI + Join(Texts(SgrCodes(fg, bg, fgBright, bgBright)), ';') + "m"
  }

  /** `c()`: the parameterless SGR sequence, which resets all attributes. */
  const Reset: string := Sgr(None, None, false, false)

  /** Reads an SGR sequence back into its numeric parameters. */
  function ParseSgr(s: string): Option<seq<int>>
  {
    if |s| >= 3 && s[..2] == CSI && s[|s| - 1] == 'm' then
      var body := s[2..|s| - 1];
      if body == "" then Some([]) else ParseAll(Split(body, ';'))
    else None
  }

  function ParseAll(texts: seq<string>): Option<seq<int>>
  {
    if texts == [] then Some([])
    else match (ParseInt(texts[0]), ParseAll(texts[1..]))
      case (Some(v), Some(vs)) => Some([v] + vs)
      case _ => None
  }

  lemma {:induction false} ParseAllTexts(codes: seq<int>)
    ensures ParseAll(Texts(codes)) == Some(codes)
  {
    if codes != [] {
      IntRoundTrip(codes[0]);
      ParseAllTexts(codes[1..]);
      assert Texts(codes)[1..] == Texts(codes[1..]);
      assert [codes[0]] + codes[1..] == codes;
    }
  }

  /** Round trip: the sequence `c` builds carries exactly the parameters it
      was built from, foreground first, one `;` between them and none after
      the last; in particular `c()` is `ESC [ m`. */
  lemma SgrRoundTrip(fg: Option<int>, bg: Option<int>, fgBright: bool, bgBright: bool)
    ensures ParseSgr(Sgr(fg, bg, fgBright, bgBright)) == Some(SgrCodes(fg, bg, fgBright, bgBright))
  {
    var codes := SgrCodes(fg, bg, fgBright, bgBright);
    var s := Sgr(fg, bg, fgBright, bgBright);
    var body := Join(Texts(codes), ';');
    assert s[2..|s| - 1] == body;
    ParseAllTexts(codes);
    if codes != [] {
      SplitJoin(Texts(codes), ';');
      assert body != "" by {
        assert |body| >= |Texts(codes)[0]| >= 1;
      }
    }
  }

  /** `c()` with neither colour is exactly `ESC [ m`. */
  lemma ResetIsBare()
    ensures Reset == CSI + "m"
  {
    assert SgrCodes(None, None, false, false) == [];
  }

  /** With both colours the foreground parameter comes first and a single
      `;` separates it from the background parameter. */
  lemma SgrBoth(fg: int, bg: int, fgBright: bool, bgBright: bool)
    ensures Sgr(Some(fg), Some(bg), fgBright, bgBright)
         == CSI + IntToString(FgCode(fg, fgBright)) + ";" + IntToString(BgCode(bg, bgBright)) + "m"
  {
    var f, b := IntToString(FgCode(fg, fgBright)), IntToString(BgCode(bg, bgBright));
    var codes := SgrCodes(Some(fg), Some(bg), fgBright, bgBright);
    assert codes == [FgCode(fg, fgBright), BgCode(bg, bgBright)];
    assert codes[1..] == [BgCode(bg, bgBright)];
    assert Texts(codes) == [f, b];
    assert [f, b][1..] == [b];
    assert Join([f, b], ';') == f + [';'] + b;
  }

  /** With one colour the sequence holds just that colour's parameter. */
  lemma SgrSingle(colour: int, bright: bool)
    ensures Sgr(Some(colour), None, bright, false) == CSI + IntToString(FgCode(colour, bright)) + "m"
    ensures Sgr(None, Some(colour), false, bright) == CSI + IntToString(BgCode(colour, bright)) + "m"
  {
    assert SgrCodes(Some(colour), None, bright, false) == [FgCode(colour, bright)];
    assert SgrCodes(None, Some(colour), false, bright) == [BgCode(colour, bright)];
  }

  /** A message kind: the name shown between brackets, the foreground
      colour it is shown in (its colour sequence is `c(fg)`), and whether it
      overwrites the previous line by default. */
  datatype Status = Status(name: string, fg: int, replace: bool)
  {
    /** The status's colour sequence, the second field of the script's tuple. */
    function Colour(): string
    {
      Sgr(Some(fg), None, false, false)
    }
  }

  const OK: Status := Status(" OK ", GRN, true)
  const EMPTY: Status := Status("    ", WHT, false)
  const INFO: Status := Status("INFO", CYA, false)
  const WARN: Status := Status("WARN", YEL, false)
  const FAIL: Status := Status("FAIL", RED, true)

  /** One call `print_(status, *args, replace=...)`; `replace` is `None`
      when the keyword is not passed. */
  datatype Line = Line(status: Status, args: seq<string>, replace: Option<bool>)

  /** Whether the call overwrites the line above: the `replace` keyword
      if given, the status's own default otherwise. */
  function Replaces(line: Line): (r: bool)
    ensures line.replace.Some? ==> r == line.replace.value
    ensures line.replace.None? ==> r == line.status.replace
  {
    line.replace.GetOr(line.status.replace)
  }

  /** OK and FAIL overwrite the pending line by default; EMPTY, INFO and WARN do not. */
  lemma DefaultReplace(args: seq<string>)
    ensures Replaces(Line(OK, args, None)) && Replaces(Line(FAIL, args, None))
    ensures !Replaces(Line(EMPTY, args, None)) && !Replaces(Line(INFO, args, None))
    ensures !Replaces(Line(WARN, args, None))
    ensures !Replaces(Line(FAIL, args, Some(false)))
  {
  }

  /** A three-part string splits back into its parts at their lengths. */
  lemma SlicesOfThree(a: string, b: string, c: string)
    ensures var s := a + b + c;
      && s[..|a|] == a && s[|a|..|a| + |b|] == b && s[|a| + |b|..] == c
  {
  }

  /** `[name]`. */
  function Bracketed(name: string): (b: string)
    ensures |b| == |name| + 2 && b[0] == '[' && b[1..|name| + 1] == name && b[|name| + 1] == ']'
  {
    "[" + name + "]"
  }

  /** The bracketed, coloured name of a status, with the cursor sent to
      column 1 first and the colour reset after: CHA, the status's colour,
      `[`, its name, `]`, then `c()`. */
  function Tag(status: Status): (t: string)
    ensures |t| >= 6 && t[..3] == CHA
    ensures t[|t| - 3..] == Reset
    ensures var k := 3 + |status.Colour()|; var n := |status.name|;
      && |t| == k + n + 5
      && t[3..k] == status.Colour()
      && t[k..k + n + 2] == Bracketed(status.name)
  {
    ResetIsBare();
    var head := CHA + status.Colour();
    SlicesOfThree(CHA, status.Colour(), []);
    assert head[..3] == CHA && head[3..] == status.Colour();
    SlicesOfThree(head, Bracketed(status.name), Reset);
    head + Bracketed(status.name) + Reset
  }

  /** The first field `print_` prints: the tag, preceded by cursor-up
      exactly when the call overwrites the line above. */
  function Prefix(line: Line): (p: string)
    ensures |p| >= 3
    ensures p[..3] == CUU <==> Replaces(line)
    ensures p[..3] == CHA <==> !Replaces(line)
    ensures var t := Tag(line.status); |p| >= |t| && p[|p| - |t|..] == t
    ensures |p| == |Tag(line.status)| + (if Replaces(line) then 3 else 0)
  {
    var t := Tag(line.status);
    assert CUU[2] != CHA[2];
    if Replaces(line) then CUU + t else t
  }

  /** `print_`: the positional arguments it hands to `print`, which joins
      them with single spaces (any `sep` the caller passes is discarded).
      The messages pass through unchanged and in order; an erase-to-end
      of line follows them only when the call overwrites the line above
      and has at least one message. */
  method PrintFields(line: Line) returns (fields: seq<string>)
    ensures |fields| == |line.args| + 1 || |fields| == |line.args| + 2
    ensures fields[0] == Prefix(line)
    ensures fields[1..|line.args| + 1] == line.args
    ensures |fields| == |line.args| + 2 <==> Replaces(line) && line.args != []
    ensures |fields| == |line.args| + 2 ==> fields[|fields| - 1] == EL
  {
    var prefix := Tag(line.status);
    var args := line.args;
    if Replaces(line) {
      prefix := CUU + prefix;
      if args != [] {
        args := args + [EL];
      }
    }
    assert prefix == Prefix(line);
    fields := [prefix] + args;
    assert fields[1..] == args;
  }
}
