/**
  What the two printers of the HAL mean by a format: a format is a list of pieces, and a piece says which
  argument it takes and what is shown for it. A word argument is 32 bits; its number is its hexadecimal
  digits put together.
 */
module FormatText {
  import opened Numerals

  datatype Arg = Word(bits: bv32) | Text(text: string)

  /** The number of a 4-bit pattern. */
  function Small(b: bv32): (n: nat)
    ensures n < 16 && (b == 0 ==> n == 0)
  {
    if b == 0 then 0 else if b == 1 then 1 else if b == 2 then 2 else if b == 3 then 3
    else if b == 4 then 4 else if b == 5 then 5 else if b == 6 then 6 else if b == 7 then 7
    else if b == 8 then 8 else if b == 9 then 9 else if b == 10 then 10 else if b == 11 then 11
    else if b == 12 then 12 else if b == 13 then 13 else if b == 14 then 14 else 15
  }

  /** The number of a word. */
  function Unsigned(w: bv32): nat
    decreases w
  {
    if w == 0 then 0 else Unsigned(w >> 4) * 16 + Small(w & 0xF)
  }

  lemma UnsignedStep(w: bv32)
    ensures Unsigned(w) == Unsigned(w >> 4) * 16 + Small(w & 0xF)
    ensures w != 0 ==> Unsigned(w) > 0
    decreases w
  {
    if w != 0 {
      if w >> 4 == 0 {
        LowDigit(w);
      } else {
        UnsignedStep(w >> 4);
      }
    }
  }

  lemma LowDigit(w: bv32)
    requires w != 0 && w >> 4 == 0
    ensures Small(w & 0xF) > 0
  {
    assert w & 0xF != 0;
  }

  lemma UnsignedFits(w: bv32)
    ensures Unsigned(w) < WORD
  {
    assert w >> 4 >> 4 >> 4 >> 4 >> 4 >> 4 >> 4 >> 4 == 0;
    hide Small;
    var w1 := w >> 4; var w2 := w1 >> 4; var w3 := w2 >> 4; var w4 := w3 >> 4;
    var w5 := w4 >> 4; var w6 := w5 >> 4; var w7 := w6 >> 4;
    UnsignedStep(w7); UnsignedStep(w6); UnsignedStep(w5); UnsignedStep(w4);
    UnsignedStep(w3); UnsignedStep(w2); UnsignedStep(w1); UnsignedStep(w);
  }

  lemma SmallIs(b: bv32)
    requires b < 16
    ensures Small(b) == b as nat
  {
  }

  /** The number of a word is that of its upper seven hexadecimal digits, times 16, and its lowest digit. */
  lemma WordNumber(w: bv32)
    ensures Unsigned(w) == 16 * Unsigned(w >> 4) + (w & 0xF) as nat && Unsigned(0) == 0
  {
    assert Unsigned(0) == 0;
    hide Small, Unsigned;
    UnsignedStep(w);
    LowestDigit(w);
  }

  lemma LowestDigit(w: bv32)
    ensures Small(w & 0xF) == (w & 0xF) as nat
  {
    assert w & 0xF < 16;
    SmallIs(w & 0xF);
    hide Small;
  }

  /** The character of a word is that of its lowest eight bits. */
  lemma ByteIs(w: bv32)
    ensures Byte(w) as int == 16 * ((w >> 4) & 0xF) as nat + (w & 0xF) as nat
  {
    UnsignedStep(w);
    UnsignedStep(w >> 4);
    LowestDigit(w);
    LowestDigit(w >> 4);
    hide Small, Unsigned;
    LowTwo(Unsigned(w >> 4 >> 4), Small((w >> 4) & 0xF), Small(w & 0xF));
  }

  lemma LowTwo(h: nat, d: nat, e: nat)
    requires d < 16 && e < 16
    ensures ((h * 16 + d) * 16 + e) % 256 == d * 16 + e
  {
    assert (h * 16 + d) * 16 + e == h * 256 + (d * 16 + e);
  }

  // ---------------------------------------------------------------- pieces of a format

  datatype Piece = Literal(c: char) | Directive(zeros: bool, width: int, letter: char)

  predicate IsInteger(letter: char) { letter in "diuoxX" }

  /** The letters the log printer prints something for. */
  predicate Prints(letter: char) { IsInteger(letter) || letter == 'c' || letter == 's' }

  predicate Suits(letter: char, arg: Arg) { if letter == 's' then arg.Text? else arg.Word? }

  function BaseOf(letter: char): Base {
    if letter == 'o' then 8 else if letter == 'x' || letter == 'X' then 16 else 10
  }

  function Byte(w: bv32): char { (Unsigned(w) % 256) as char }

  function Shown(p: Piece, arg: Arg): string
    requires p.Directive? && Suits(p.letter, arg)
  {
    if p.letter == 's' then Rep(' ', p.width - |arg.text|) + arg.text
    else if IsInteger(p.letter) then
      UnsignedFits(arg.bits);
      IntText(Unsigned(arg.bits), p.letter == 'd' || p.letter == 'i', BaseOf(p.letter), p.letter == 'X',
              p.zeros, p.width)
    else Rep(' ', p.width - 1) + [Byte(arg.bits)]
  }

  /** The arguments suit the pieces; there may be more arguments than pieces take. */
  predicate Fit(ps: seq<Piece>, args: seq<Arg>) {
    ps == []
    || (if ps[0].Literal? then Fit(ps[1..], args)
        else args != [] && Suits(ps[0].letter, args[0]) && Fit(ps[1..], args[1..]))
  }

  function Render(ps: seq<Piece>, args: seq<Arg>): string
    requires Fit(ps, args)
  {
    if ps == [] then ""
    else if ps[0].Literal? then [ps[0].c] + Render(ps[1..], args)
    else Shown(ps[0], args[0]) + Render(ps[1..], args[1..])
  }

  // ---------------------------------------------------------------- what a reader gets

  predicate UpperHex(c: char) { 'A' <= c <= 'F' }

  predicate LowerHex(c: char) { 'a' <= c <= 'f' }

  predicate Octal(c: char) { '0' <= c <= '7' || c == ' ' }

  /** The text `s` shows a word in the way of an integer directive: d and i as a signed decimal number, u as an
      unsigned one, o in octal, x and X in hexadecimal, x without upper case letters and X without lower case ones. */
  ghost predicate ShowsInteger(letter: char, w: bv32, s: string) {
    var n := Unsigned(w);
    && ((letter == 'd' || letter == 'i') ==> Read(s, 10) == if n >= 0x8000_0000 then n - 0x1_0000_0000 else n)
    && (letter == 'u' ==> Read(s, 10) == n)
    && (letter == 'o' ==> Read(s, 8) == n && forall c :: c in s ==> Octal(c))
    && (letter == 'x' ==> Read(s, 16) == n && forall c :: c in s ==> !UpperHex(c))
    && (letter == 'X' ==> Read(s, 16) == n && forall c :: c in s ==> !LowerHex(c))
  }

  lemma IntegersReadBack(letter: char, zeros: bool, width: int, w: bv32)
    requires letter in "diouxX"
    ensures IsInteger(letter) && ShowsInteger(letter, w, Shown(Directive(zeros, width, letter), Word(w)))
  {
    var n, signed, base, upper := Unsigned(w), letter == 'd' || letter == 'i', BaseOf(letter), letter == 'X';
    UnsignedFits(w);
    IntegerRoundTrip(n, signed, base, upper, zeros, width);
    NumeralDigits(Magnitude(n, signed), base, upper);
    hide Numeral, Read, Field, Unsigned, Rep;
    if !signed {
      FieldOf(Numeral(n, base, upper), base, upper, zeros, width);
    }
  }

  lemma FieldOf(digits: string, base: Base, upper: bool, zeros: bool, width: int)
    requires forall c :: c in digits ==> IsDigitOf(c, base, upper)
    ensures forall c :: c in Field(false, digits, zeros, width) ==> c == ' ' || c == '0' || IsDigitOf(c, base, upper)
  {
    hide IsDigitOf, Rep;
  }

  /** The string `s` is `shown` behind spaces up to the width. */
  ghost predicate SpacedOut(s: string, shown: string, width: int) {
    && |s| == (if width > |shown| then width else |shown|) && s[|s| - |shown|..] == shown
    && forall i :: 0 <= i < |s| - |shown| ==> s[i] == ' '
  }

  /** A text is shown as it is, behind spaces up to the width. */
  lemma TextShown(zeros: bool, width: int, text: string)
    ensures SpacedOut(Shown(Directive(zeros, width, 's'), Text(text)), text, width)
  {
  }

  /** And so is a character. */
  lemma CharShown(zeros: bool, width: int, w: bv32)
    ensures SpacedOut(Shown(Directive(zeros, width, 'c'), Word(w)), [Byte(w)], width)
  {
    hide Byte;
  }

  // ---------------------------------------------------------------- printing piece by piece

  /** What has been printed and what the pieces left will print make up the whole text. */
  ghost predicate Pending(goal: string, out: string, ps: seq<Piece>, left: seq<Arg>) {
    Fit(ps, left) && goal == out + Render(ps, left)
  }

  lemma BeginPrinting(ps: seq<Piece>, args: seq<Arg>)
    requires Fit(ps, args)
    ensures Pending(Render(ps, args), "", ps, args)
  {
  }

  lemma PrintLiteral(goal: string, out: string, c: char, rest: seq<Piece>, left: seq<Arg>)
    requires Pending(goal, out, [Literal(c)] + rest, left)
    ensures Pending(goal, out + [c], rest, left)
  {
    var ps := [Literal(c)] + rest;
    assert ps[1..] == rest;
    assert out + ([c] + Render(rest, left)) == (out + [c]) + Render(rest, left);
  }

  lemma PrintDirective(goal: string, out: string, p: Piece, rest: seq<Piece>, left: seq<Arg>)
    requires p.Directive? && Pending(goal, out, [p] + rest, left)
    ensures left != [] && Suits(p.letter, left[0])
    ensures Pending(goal, out + Shown(p, left[0]), rest, left[1..])
  {
    hide Shown, Suits;
    var ps := [p] + rest;
    assert ps[0] == p && ps[1..] == rest;
    var shown := Shown(p, left[0]);
    assert out + (shown + Render(rest, left[1..])) == (out + shown) + Render(rest, left[1..]);
  }

  lemma EndPrinting(goal: string, out: string, left: seq<Arg>)
    requires Pending(goal, out, [], left)
    ensures out == goal
  {
  }
}
