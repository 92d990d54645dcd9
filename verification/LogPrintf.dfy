/**
  alt_log_private_printf: a state machine over the characters of the format. It is proved to print what a
  grammar of directives says: '%', an optional '0', any mix of digits, dots and 'l', and a letter.
 */
module LogPrintf {
  import opened Numerals
  import opened FormatText

  // ---------------------------------------------------------------- the grammar

  predicate IsDigit(c: char) { '0' <= c <= '9' }

  predicate IsFlag(c: char) { IsDigit(c) || c == '.' || c == 'l' }

  /** How many characters in front are flags. */
  function FlagRun(s: string): (n: nat)
    ensures n <= |s| && (n < |s| ==> !IsFlag(s[n]))
    ensures forall i :: 0 <= i < n ==> IsFlag(s[i])
  {
    if s == "" || !IsFlag(s[0]) then 0 else 1 + FlagRun(s[1..])
  }

  function UpToDot(s: string): string {
    if s == "" || s[0] == '.' then "" else [s[0]] + UpToDot(s[1..])
  }

  function OnlyDigits(s: string): string {
    if s == "" then "" else (if IsDigit(s[0]) then [s[0]] else "") + OnlyDigits(s[1..])
  }

  /** The width: the number made of the digits in front of the first dot; -1 if there are none. */
  function Width(flags: string): int {
    var digits := OnlyDigits(UpToDot(flags));
    if digits == "" then -1 else Value(digits, 10)
  }

  datatype Scanned = Missing | Percent | Spec(zeros: bool, width: int, letter: char, len: nat)

  /** What stands behind a '%'. */
  function Scan(s: string): (r: Scanned)
    ensures r.Spec? ==> r.len <= |s|
    ensures s == "" ==> r.Missing?
  {
    if s == "" then Missing
    else if s[0] == '%' then Percent
    else
      var z := if s[0] == '0' then 1 else 0;
      var n := FlagRun(s[z..]);
      if z + n == |s| then Missing else Spec(z == 1, Width(s[z..z + n]), s[z + n], z + n + 1)
  }

  function Pieces(fmt: string): seq<Piece>
    decreases |fmt|
  {
    if fmt == "" then []
    else if fmt[0] != '%' then [Literal(fmt[0])] + Pieces(fmt[1..])
    else match Scan(fmt[1..])
      case Missing => []
      case Percent => [Literal('%')] + Pieces(fmt[2..])
      case Spec(zeros, width, letter, len) =>
        (if Prints(letter) then [Directive(zeros, width, letter)] else []) + Pieces(fmt[len + 1..])
  }

  // ---------------------------------------------------------------- how flags add up

  lemma {:induction false} UpToDotSnoc(s: string, c: char)
    ensures UpToDot(s + [c]) == if '.' in s then UpToDot(s) else if c == '.' then s else s + [c]
  {
    if s == "" {
    } else {
      UpToDotSnoc(s[1..], c);
      assert (s + [c])[1..] == s[1..] + [c];
      assert s == [s[0]] + s[1..];
    }
  }

  lemma {:induction false} NoDot(s: string)
    requires '.' !in s
    ensures UpToDot(s) == s
  {
    if s == "" {
    } else {
      NoDot(s[1..]);
    }
  }

  lemma {:induction false} OnlyDigitsSnoc(s: string, c: char)
    ensures OnlyDigits(s + [c]) == OnlyDigits(s) + if IsDigit(c) then [c] else ""
  {
    if s == "" {
    } else {
      OnlyDigitsSnoc(s[1..], c);
      assert (s + [c])[1..] == s[1..] + [c];
    }
  }

  lemma DotIsNoDigit()
    ensures !IsDigit('.')
  {
  }

  lemma ValueSnoc(digits: string, c: char)
    ensures Value(digits + [c], 10) == Value(digits, 10) * 10 + DigitValue(c)
    ensures digits == "" ==> Value(digits, 10) == 0
  {
    hide DigitValue;
    assert (digits + [c])[..|digits|] == digits;
  }

  /** One more flag character does to the width what the printer does to fmtBeforeDecimal. */
  lemma WidthSnoc(flags: string, c: char)
    ensures Width(flags + [c]) ==
      if IsDigit(c) && '.' !in flags then
        (if Width(flags) < 0 then 0 else Width(flags) * 10) + DigitValue(c)
      else Width(flags)
  {
    hide UpToDot, OnlyDigits, Value, DigitValue, IsDigit;
    UpToDotSnoc(flags, c);
    if '.' !in flags {
      NoDot(flags);
      OnlyDigitsSnoc(flags, c);
      var digits := OnlyDigits(flags);
      assert digits + "" == digits;
      ValueSnoc(digits, c);
      DotIsNoDigit();
    }
  }

  lemma {:induction false} RunOf(flags: string, c: char, rest: string)
    requires (forall i :: 0 <= i < |flags| ==> IsFlag(flags[i])) && !IsFlag(c)
    ensures FlagRun(flags + [c] + rest) == |flags|
  {
    var s := flags + [c] + rest;
    if flags == "" {
    } else {
      RunOf(flags[1..], c, rest);
      assert s[1..] == flags[1..] + [c] + rest;
    }
  }

  lemma {:induction false} RunToEnd(flags: string)
    requires forall i :: 0 <= i < |flags| ==> IsFlag(flags[i])
    ensures FlagRun(flags) == |flags|
  {
    if flags == "" {
    } else {
      RunToEnd(flags[1..]);
    }
  }

  /** What the printer has read of a directive: a leading '0' or none, then flags. */
  ghost predicate Reading(lead: string, flags: string, c: char) {
    && (lead == "" || lead == "0") && (forall i :: 0 <= i < |flags| ==> IsFlag(flags[i]))
    && (lead == "" ==> if flags == "" then c != '0' && c != '%' else flags[0] != '0')
  }

  lemma ScanComplete(lead: string, flags: string, c: char, rest: string)
    requires Reading(lead, flags, c) && !IsFlag(c)
    ensures Scan(lead + flags + [c] + rest) == Spec(lead == "0", Width(flags), c, |lead| + |flags| + 1)
  {
    hide Width;
    var s := lead + flags + [c] + rest;
    var z := |lead|;
    RunOf(flags, c, rest);
    Parts(lead, flags, c, rest);
    assert lead == "0" ==> s[0] == '0';
    assert lead == "" ==> s[0] == if flags == "" then c else flags[0];
  }

  lemma Parts(lead: string, flags: string, c: char, rest: string)
    ensures var s, z := lead + flags + [c] + rest, |lead|;
      s[z..] == flags + [c] + rest && s[z..z + |flags|] == flags && s[z + |flags|] == c
  {
  }

  lemma ScanUnfinished(lead: string, flags: string)
    requires lead + flags != "" && Reading(lead, flags, 'l')
    ensures Scan(lead + flags).Missing?
  {
    var s := lead + flags;
    RunToEnd(flags);
    assert s[|lead|..] == flags;
    assert lead == "0" ==> s[0] == '0';
    assert lead == "" ==> s == flags;
  }

  // ---------------------------------------------------------------- the state machine

  datatype State = Chars | FirstFmtChar | OtherFmtChar

  lemma PiecesOfDirective(lead: string, flags: string, c: char, rest: string)
    requires Reading(lead, flags, c) && !IsFlag(c)
    ensures Pieces("%" + lead + flags + [c] + rest)
      == (if Prints(c) then [Directive(lead == "0", Width(flags), c)] else []) + Pieces(rest)
  {
    hide Width, Reading, Prints, IsFlag;
    var s := lead + flags + [c] + rest;
    var text := "%" + lead + flags + [c] + rest;
    ScanComplete(lead, flags, c, rest);
    assert text[0] == '%' && text[1..] == s;
    assert text[|lead| + |flags| + 2..] == rest;
  }

  /** The directives one by one, with a width and without, padded with zeros or with spaces. */
  lemma OneDirective(zeros: bool, flags: string, letter: char, arg: Arg)
    requires Reading(if zeros then "0" else "", flags, letter) && letter in "cdiosuxX" && Suits(letter, arg)
    ensures var fmt := "%" + (if zeros then "0" else "") + flags + [letter] + "";
      Fit(Pieces(fmt), [arg]) && Render(Pieces(fmt), [arg]) == Shown(Directive(zeros, Width(flags), letter), arg)
  {
    var p := Directive(zeros, Width(flags), letter);
    PiecesOfDirective(if zeros then "0" else "", flags, letter, "");
    hide Shown, Reading, Width;
    assert Pieces("") == [] && [p] + [] == [p];
    assert [p][1..] == [] && [arg][1..] == [];
    assert Fit([p], [arg]) && Render([p], [arg]) == Shown(p, arg) + Render([], []);
    assert Shown(p, arg) + "" == Shown(p, arg);
  }

  /** All other letters show nothing and take no argument. */
  lemma UnknownLetter(zeros: bool, flags: string, letter: char)
    requires Reading(if zeros then "0" else "", flags, letter) && !IsFlag(letter) && letter !in "cdiosuxX"
    ensures Pieces("%" + (if zeros then "0" else "") + flags + [letter] + "") == []
  {
    PiecesOfDirective(if zeros then "0" else "", flags, letter, "");
    hide Width, Reading;
    assert Pieces("") == [] && !Prints(letter);
  }

  /** So every integer directive shows its number in its own base and case. */
  lemma IntegerDirective(zeros: bool, flags: string, letter: char, w: bv32)
    requires Reading(if zeros then "0" else "", flags, letter) && letter in "diouxX"
    ensures var fmt := "%" + (if zeros then "0" else "") + flags + [letter] + "";
      Fit(Pieces(fmt), [Word(w)]) && ShowsInteger(letter, w, Render(Pieces(fmt), [Word(w)]))
  {
    OneDirective(zeros, flags, letter, Word(w));
    IntegersReadBack(letter, zeros, Width(flags), w);
    hide Shown, Reading, Width, Pieces, Render, Fit;
  }

  /** At the end of the format a directive that has not reached its letter prints nothing. */
  lemma NothingUnfinished(lead: string, flags: string, state: State)
    requires state.FirstFmtChar? ==> lead == "" && flags == ""
    requires state.OtherFmtChar? ==> lead + flags != "" && Reading(lead, flags, 'l')
    ensures Pieces((if state.Chars? then "" else "%" + lead + flags) + "") == []
  {
    var text := (if state.Chars? then "" else "%" + lead + flags) + "";
    if state.OtherFmtChar? {
      ScanUnfinished(lead, flags);
    }
    assert !state.Chars? ==> text[0] == '%' && text[1..] == lead + flags;
    hide Reading, Scan;
  }

  lemma EmptyFlags()
    ensures Width("") == -1
  {
  }

  lemma LiteralPiece(text: string, c: char, w: string)
    requires text == [c] + w && c != '%'
    ensures Pieces(text) == [Literal(c)] + Pieces(w)
  {
    assert text[1..] == w;
  }

  lemma PercentPiece(text: string, w: string)
    requires text == "%%" + w
    ensures Pieces(text) == [Literal('%')] + Pieces(w)
  {
    assert text[1..] == "%" + w && text[2..] == w;
  }

  lemma ReadingOn(lead: string, flags: string, c: char, first: bool)
    requires if first then lead == "" && flags == "" && c != '0' && c != '%'
             else lead + flags != "" && Reading(lead, flags, 'l')
    ensures Reading(lead, flags, c)
  {
  }

  lemma LeadRead()
    ensures Reading("0", "", 'l')
  {
  }

  lemma MoreFlags(lead: string, flags: string, c: char)
    requires Reading(lead, flags, c) && IsFlag(c)
    ensures Reading(lead, flags + [c], 'l') && lead + (flags + [c]) != ""
    ensures '.' in flags + [c] <==> '.' in flags || c == '.'
  {
  }

  lemma FlagKinds(c: char)
    ensures IsFlag(c) <==> IsDigit(c) || c == '.' || c == 'l'
    ensures IsDigit(c) ==> c != '.'
  {
  }

  /** The branches of the last switch. */
  method PrintArgument(letter: char, zeros: bool, width: int, args: seq<Arg>) returns (out: string)
    requires Prints(letter) ==> args != [] && Suits(letter, args[0])
    ensures out == if Prints(letter) then Shown(Directive(zeros, width, letter), args[0]) else ""
  {
    out := "";
    if IsInteger(letter) {
      var base: Base := 10;
      if letter == 'o' {
        base := 8;
      } else if letter == 'x' || letter == 'X' {
        base := 16;
      }
      UnsignedFits(args[0].bits);
      var signed := letter == 'd' || letter == 'i';
      out := PrintInteger(Unsigned(args[0].bits), signed, base, letter == 'X', zeros, width);
    } else if letter == 'c' {
      var pad := RepChar(' ', width - 1);
      out := pad + [Byte(args[0].bits)];
    } else if letter == 's' {
      var pad := RepChar(' ', width - |args[0].text|);
      out := pad + args[0].text;
    }
  }

  method LogPrintf(fmt: string, args: seq<Arg>) returns (out: string)
    requires Fit(Pieces(fmt), args)
    ensures out == Render(Pieces(fmt), args)
  {
    hide *;
    out := "";
    var w, left := fmt, args;
    var state := Chars;
    var zeros, afterDot, before := false, false, -1;
    ghost var lead, flags := "", "";
    ghost var goal := Render(Pieces(fmt), args);
    BeginPrinting(Pieces(fmt), args);
    assert "" + w == w;
    while w != ""
      invariant Pending(goal, out, Pieces((if state.Chars? then "" else "%" + lead + flags) + w), left)
      invariant state.FirstFmtChar? ==> lead == "" && flags == "" && !zeros && !afterDot && before == -1
      invariant state.OtherFmtChar? ==> lead + flags != "" && Reading(lead, flags, 'l')
      invariant !state.Chars? ==> zeros == (lead == "0") && afterDot == ('.' in flags) && before == Width(flags)
      decreases |w|
    {
      var c := w[0];
      ghost var text := (if state.Chars? then "" else "%" + lead + flags) + w;
      w := w[1..];
      if state.Chars? {
        lead, flags := "", "";
        if c == '%' {
          zeros, afterDot, before := false, false, -1;
          state := FirstFmtChar;
          EmptyFlags();
          assert text == "%" + lead + flags + w;
        } else {
          LiteralPiece(text, c, w);
          PrintLiteral(goal, out, c, Pieces(w), left);
          out := out + [c];
          assert "" + w == w;
        }
      } else if state.FirstFmtChar? && c == '0' {
        zeros := true;
        state := OtherFmtChar;
        assert text == "%" + "0" + "" + w;
        lead := "0";
        LeadRead();
      } else if state.FirstFmtChar? && c == '%' {
        PercentPiece(text, w);
        PrintLiteral(goal, out, c, Pieces(w), left);
        out := out + [c];
        state := Chars;
        assert "" + w == w;
      } else {
        ReadingOn(lead, flags, c, state.FirstFmtChar?);
        assert text == "%" + lead + flags + [c] + w;
        state := OtherFmtChar;
        if IsFlag(c) {
          WidthSnoc(flags, c);
          MoreFlags(lead, flags, c);
          FlagKinds(c);
          if c == '.' {
            afterDot := true;
          } else if IsDigit(c) {
            if !afterDot {
              if before < 0 {
                before := 0;
              } else {
                before := before * 10;
              }
              before := before + DigitValue(c);
            }
          }
          flags := flags + [c];
          assert text == "%" + lead + flags + w;
        } else {
          PiecesOfDirective(lead, flags, c, w);
          if Prints(c) {
            PrintDirective(goal, out, Directive(zeros, before, c), Pieces(w), left);
          } else {
            assert [] + Pieces(w) == Pieces(w) && out + "" == out;
          }
          var shown := PrintArgument(c, zeros, before, left);
          out := out + shown;
          if Prints(c) {
            left := left[1..];
          }
          state := Chars;
          assert "" + w == w;
        }
      }
    }
    NothingUnfinished(lead, flags, state);
    EndPrinting(goal, out, left);
  }
}
