/**
  alt_printf: a direct scanner that knows %c, %s, %x and %%, with hexadecimal by shift and mask. On the
  language the two printers share they print the same.
 */
module AltPrintf {
  import opened Numerals
  import opened FormatText
  import LogPrintf

  /** How this printer reads a format: a '%' and one letter; unknown letters are skipped. */
  function Pieces(fmt: string): seq<Piece>
    decreases |fmt|
  {
    if fmt == "" then []
    else if fmt[0] != '%' then [Literal(fmt[0])] + Pieces(fmt[1..])
    else if |fmt| == 1 then []
    else OfLetter(fmt[1]) + Pieces(fmt[2..])
  }

  function OfLetter(c: char): seq<Piece> {
    if c == '%' then [Literal('%')]
    else if c == 'c' || c == 'x' || c == 's' then [Directive(false, -1, c)]
    else []
  }

  // ---------------------------------------------------------------- the loops

  // `shift` is a multiple of 4 from 28 down; -4, in 6 bits, is behind the last digit.

  predicate AtDigit(shift: bv6) { shift <= 28 && shift & 3 == 0 }

  function Down(shift: bv6): bv6 { shift - 4 }

  function Picked(v: bv32, shift: bv6): bv32
    requires AtDigit(shift)
  {
    v & (0xF << shift)
  }

  function DigitAt(v: bv32, shift: bv6): bv32
    requires AtDigit(shift)
  {
    Picked(v, shift) >> shift
  }

  /** The digits from `shift` up, and those above `shift`. */
  function From(v: bv32, shift: bv6): bv32 {
    if shift <= 28 then v >> shift else v
  }

  function Above(v: bv32, shift: bv6): bv32 {
    if shift <= 28 then (v >> shift) >> 4 else v
  }

  /** How many digits are still to come. */
  ghost function ToCome(shift: bv6): nat {
    if shift == 0 then 1 else if shift == 4 then 2 else if shift == 8 then 3 else if shift == 12 then 4
    else if shift == 16 then 5 else if shift == 20 then 6 else if shift == 24 then 7
    else if shift == 28 then 8 else 0
  }

  lemma ShiftDown(v: bv32, shift: bv6)
    requires AtDigit(shift)
    ensures AtDigit(Down(shift)) || Down(shift) == 60
    ensures Above(v, Down(shift)) == From(v, shift)
    ensures Down(shift) != 60 && From(v, shift) != 0 ==> From(v, Down(shift)) != 0
    ensures Down(shift) == 60 ==> From(v, shift) == v
  {
  }

  lemma FewerToCome(shift: bv6)
    requires AtDigit(shift)
    ensures ToCome(Down(shift)) < ToCome(shift)
  {
  }

  lemma OneDigit(v: bv32, shift: bv6)
    requires AtDigit(shift)
    ensures Above(v, shift) == From(v, shift) >> 4 && DigitAt(v, shift) == From(v, shift) & 0xF
    ensures Picked(v, shift) == 0 && Above(v, shift) == 0 <==> From(v, shift) == 0
  {
    ShiftMask(v, shift);
    SplitWord(From(v, shift));
    hide AtDigit;
  }

  lemma ShiftMask(v: bv32, shift: bv6)
    requires AtDigit(shift)
    ensures DigitAt(v, shift) == From(v, shift) & 0xF
    ensures Picked(v, shift) == 0 <==> From(v, shift) & 0xF == 0
    ensures Above(v, shift) == From(v, shift) >> 4
  {
  }

  lemma SplitWord(w: bv32)
    ensures w >> 4 == 0 && w & 0xF == 0 <==> w == 0
  {
  }

  lemma Ends(v: bv32)
    ensures AtDigit(28) && Above(v, 28) == 0 && Above(v, 60) == v && !AtDigit(60)
    ensures Numeral(Unsigned(0), 16, false) == "0"
  {
  }

  /** The hexadecimal branch: the usual numeral of the number, which reads back and has no upper case letters. */
  method PrintHex(v: bv32) returns (out: string)
    ensures out == Numeral(Unsigned(v), 16, false)
    ensures Value(out, 16) == Unsigned(v) && forall c :: c in out ==> IsDigitOf(c, 16, false)
  {
    hide *;
    NumeralReadsBack(Unsigned(v), 16, false);
    NumeralDigits(Unsigned(v), 16, false);
    Ends(v);
    if v == 0 {
      return "0";
    }
    var shift: bv6 := 28;
    while Picked(v, shift) == 0
      invariant AtDigit(shift) && Above(v, shift) == 0
      decreases ToCome(shift)
    {
      OneDigit(v, shift);
      ShiftDown(v, shift);
      FewerToCome(shift);
      shift := Down(shift);
    }
    OneDigit(v, shift);
    out := "";
    while shift != 60
      invariant AtDigit(shift) || shift == 60
      invariant AtDigit(shift) ==> From(v, shift) != 0
      invariant out == if Above(v, shift) == 0 then "" else Numeral(Unsigned(Above(v, shift)), 16, false)
      decreases ToCome(shift)
    {
      OneDigit(v, shift);
      ShiftDown(v, shift);
      FewerToCome(shift);
      var digit := DigitAt(v, shift);
      MoreDigits(From(v, shift));
      out := out + [DigitChar(Small(digit), false)];
      shift := Down(shift);
    }
  }

  lemma MoreDigits(w: bv32)
    requires w != 0
    ensures Numeral(Unsigned(w), 16, false)
      == (if w >> 4 == 0 then "" else Numeral(Unsigned(w >> 4), 16, false)) + [DigitChar(Small(w & 0xF), false)]
  {
    UnsignedStep(w);
    UnsignedStep(w >> 4);
    NextDigit(Unsigned(w >> 4), Small(w & 0xF), 16, false);
    assert w >> 4 == 0 ==> Unsigned(w >> 4) == 0;
    hide Small, Numeral;
  }

  method AltPrintf(fmt: string, args: seq<Arg>) returns (out: string)
    requires Fit(Pieces(fmt), args)
    ensures out == Render(Pieces(fmt), args)
  {
    hide *;
    out := "";
    var w, left := fmt, args;
    ghost var goal := Render(Pieces(fmt), args);
    BeginPrinting(Pieces(fmt), args);
    while w != ""
      invariant Pending(goal, out, Pieces(w), left)
      decreases |w|
    {
      ghost var text := w;
      var c := w[0];
      w := w[1..];
      if c != '%' {
        LiteralPiece(text);
        PrintLiteral(goal, out, c, Pieces(w), left);
        out := out + [c];
      } else {
        SecondCharacter(text);
        LetterPieces();
        if w == "" {
          EndPrinting(goal, out, left);
          return;
        }
        c := w[0];
        w := w[1..];
        assert text[2..] == w;
        if c == '%' {
          PrintLiteral(goal, out, '%', Pieces(w), left);
          out := out + [c];
        } else if c == 'c' || c == 'x' || c == 's' {
          PrintDirective(goal, out, Directive(false, -1, c), Pieces(w), left);
          PlainDirective(c, left[0]);
          if c == 'c' {
            out := out + [Byte(left[0].bits)];
          } else if c == 'x' {
            var digits := PrintHex(left[0].bits);
            out := out + digits;
          } else {
            out := out + left[0].text;
          }
          left := left[1..];
        } else {
          assert [] + Pieces(w) == Pieces(w);
        }
      }
    }
    NothingLeft();
    EndPrinting(goal, out, left);
  }

  lemma LiteralPiece(text: string)
    requires text != "" && text[0] != '%'
    ensures Pieces(text) == [Literal(text[0])] + Pieces(text[1..])
  {
  }

  lemma SecondCharacter(text: string)
    requires text != "" && text[0] == '%'
    ensures |text| == 1 ==> Pieces(text) == []
    ensures |text| > 1 ==> Pieces(text) == OfLetter(text[1]) + Pieces(text[2..])
  {
  }

  lemma LetterPieces()
    ensures OfLetter('%') == [Literal('%')]
    ensures forall c :: c == 'c' || c == 'x' || c == 's' ==> OfLetter(c) == [Directive(false, -1, c)]
    ensures forall c :: c != '%' && c != 'c' && c != 'x' && c != 's' ==> OfLetter(c) == []
  {
  }

  lemma NothingLeft()
    ensures Pieces("") == []
  {
  }

  /** A directive without flags shows the bare character, text or numeral. */
  lemma PlainDirective(letter: char, arg: Arg)
    requires letter == 'c' || letter == 'x' || letter == 's'
    requires Suits(letter, arg)
    ensures (letter == 's' <==> arg.Text?)
    ensures Shown(Directive(false, -1, letter), arg) ==
      match arg
      case Text(text) => text
      case Word(bits) => if letter == 'c' then [Byte(bits)] else Numeral(Unsigned(bits), 16, false)
  {
    hide Numeral, Byte, Unsigned;
    var shown := Shown(Directive(false, -1, letter), arg);
    match arg {
      case Text(text) => assert "" + text == text;
      case Word(bits) =>
        var digits := Numeral(Unsigned(bits), 16, false);
        UnsignedFits(bits);
        assert "" + ("" + digits) == digits;
        assert "" + [Byte(bits)] == [Byte(bits)];
    }
  }

  /** The directives one by one, as this printer shows them. */
  lemma OneDirective(letter: char, arg: Arg)
    requires (letter == 'c' || letter == 's' || letter == 'x') && Suits(letter, arg)
    ensures var fmt := "%" + [letter];
      Fit(Pieces(fmt), [arg]) && Render(Pieces(fmt), [arg]) == Shown(Directive(false, -1, letter), arg)
  {
    var fmt, p := "%" + [letter], Directive(false, -1, letter);
    assert fmt[2..] == "";
    assert Pieces(fmt) == [p] + [];
    assert [p][1..] == [] && [arg][1..] == [];
    assert Fit([p], [arg]);
    hide Shown;
    assert Shown(p, arg) + Render([], []) == Shown(p, arg);
  }

  /** So %x shows the number in hexadecimal, without upper case letters. */
  lemma HexDirective(w: bv32)
    ensures Fit(Pieces("%x"), [Word(w)])
    ensures var s := Render(Pieces("%x"), [Word(w)]); Read(s, 16) == Unsigned(w) && forall c :: c in s ==> !UpperHex(c)
  {
    OneDirective('x', Word(w));
    IntegersReadBack('x', false, -1, w);
    hide *;
    assert "%" + ['x'] == "%x";
  }

  // ---------------------------------------------------------------- agreement

  /** The common language: behind a '%' stands nothing, or a character that is neither a flag of the log
      printer nor an integer letter other than 'x'. */
  ghost predicate Common(fmt: string)
    decreases |fmt|
  {
    fmt == ""
    || (fmt[0] != '%' && Common(fmt[1..]))
    || (fmt[0] == '%' && |fmt| == 1)
    || (fmt[0] == '%' && |fmt| > 1 && !LogPrintf.IsFlag(fmt[1]) && (IsInteger(fmt[1]) ==> fmt[1] == 'x')
        && Common(fmt[2..]))
  }

  /** Both printers read a common format as the same pieces. */
  lemma {:induction false} SamePieces(fmt: string)
    requires Common(fmt)
    ensures Pieces(fmt) == LogPrintf.Pieces(fmt)
    decreases |fmt|
  {
    if fmt == "" {
    } else {
      if fmt[0] != '%' {
        SamePieces(fmt[1..]);
      } else if |fmt| > 1 && fmt[1] == '%' {
        SamePieces(fmt[2..]);
      } else if |fmt| > 1 {
        SamePieces(fmt[2..]);
        var c, rest := fmt[1], fmt[2..];
        assert fmt == "%" + "" + "" + [c] + rest;
        LogPrintf.PiecesOfDirective("", "", c, rest);
      }
    }
  }

  /** On the common language the two printers print the same, for all arguments that suit the format. */
  lemma PrintersAgree(fmt: string, args: seq<Arg>)
    requires Common(fmt)
    ensures Fit(Pieces(fmt), args) <==> Fit(LogPrintf.Pieces(fmt), args)
    ensures Fit(Pieces(fmt), args) ==> Render(Pieces(fmt), args) == Render(LogPrintf.Pieces(fmt), args)
  {
    SamePieces(fmt);
  }
}
