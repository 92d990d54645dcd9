/**
  Integers as the log printer writes them: what a padded field is for, how it reads back, and the
  place-value loops that produce it.
 */
module Numerals {
  import opened Arithmetic

  const WORD: nat := 0x1_0000_0000
  const SIGN: nat := 0x8000_0000

  type Base = b: nat | 2 <= b <= 16 witness 10

  function DigitChar(d: nat, upper: bool): (c: char)
    requires d < 16
    ensures DigitValue(c) == d && (c == '0' <==> d == 0) && c != '-' && c != ' '
  {
    if d <= 9 then '0' + d as char else (if upper then 'A' else 'a') + (d - 10) as char
  }

  function DigitValue(c: char): nat {
    if '0' <= c <= '9' then (c - '0') as nat
    else if 'a' <= c <= 'f' then (c - 'a') as nat + 10
    else if 'A' <= c <= 'F' then (c - 'A') as nat + 10
    else 0
  }

  /** The usual numeral of a number. */
  function Numeral(v: nat, base: Base, upper: bool): (r: string)
    ensures r != "" && r[0] != '-' && r[0] != ' '
  {
    if v < base then [DigitChar(v, upper)]
    else Numeral(Quot(v, base), base, upper) + [DigitChar(Rem(v, base), upper)]
  }

  /** What a string of digits means. */
  function Value(s: string, base: Base): nat
    decreases |s|
  {
    if s == "" then 0 else var n := |s| - 1; Times(Value(s[..n], base), base) + DigitValue(s[n])
  }

  lemma {:induction false} NumeralReadsBack(v: nat, base: Base, upper: bool)
    ensures Value(Numeral(v, base, upper), base) == v
  {
    hide Times, Quot, Rem;
    var s := Numeral(v, base, upper);
    var n := |s| - 1;
    if v < base {
      assert s[..n] == "";
      TimesLaws(0, 0, base);
    } else {
      NumeralReadsBack(Quot(v, base), base, upper);
      assert s[..n] == Numeral(Quot(v, base), base, upper);
      Division(v, base);
    }
  }

  lemma {:induction false} NoLeadingZero(v: nat, base: Base, upper: bool)
    ensures Numeral(v, base, upper)[0] == '0' <==> v == 0
  {
    hide Times, Quot, Rem;
    if v < base {
    } else {
      NoLeadingZero(Quot(v, base), base, upper);
    }
  }

  /** The digits of a base; beyond 9 they are letters of one case. */
  predicate IsDigitOf(c: char, base: Base, upper: bool) {
    DigitValue(c) < base && ('0' <= c <= '9' || (if upper then 'A' <= c <= 'F' else 'a' <= c <= 'f'))
  }

  /** A numeral is made of digits of its base, with letters in the case asked for. */
  lemma {:induction false} NumeralDigits(v: nat, base: Base, upper: bool)
    ensures forall c :: c in Numeral(v, base, upper) ==> IsDigitOf(c, base, upper)
    decreases v
  {
    hide Times, Quot;
    if v < base {
      DigitIsOf(v, base, upper);
    } else {
      NumeralDigits(Quot(v, base), base, upper);
      DigitIsOf(Rem(v, base), base, upper);
    }
  }

  lemma DigitIsOf(d: nat, base: Base, upper: bool)
    requires d < base
    ensures IsDigitOf(DigitChar(d, upper), base, upper)
  {
  }

  function Rep(c: char, r: int): (s: string)
    ensures |s| == if r > 0 then r else 0
    ensures forall i :: 0 <= i < |s| ==> s[i] == c
  {
    if r <= 0 then "" else [c] + Rep(c, r - 1)
  }

  /** The sign stands before zeros but behind spaces. */
  function Field(negative: bool, digits: string, zeros: bool, width: int): (s: string)
    ensures var n := |digits| + if negative then 1 else 0;
      |s| == if width > n then width else n
  {
    var sign := if negative then "-" else "";
    var room := width - |digits| - |sign|;
    if zeros then sign + (Rep('0', room) + digits) else Rep(' ', room) + (sign + digits)
  }

  predicate Negative(v: nat, signed: bool) { signed && v >= SIGN }

  function Magnitude(v: nat, signed: bool): nat
    requires v < WORD
  {
    if Negative(v, signed) then WORD - v else v
  }

  /** What a 32-bit word means: two's complement, if signed. */
  function Meaning(v: nat, signed: bool): int {
    if signed && v >= 0x8000_0000 then v - 0x1_0000_0000 else v
  }

  function IntText(v: nat, signed: bool, base: Base, upper: bool, zeros: bool, width: int): string
    requires v < WORD
  {
    Field(Negative(v, signed), Numeral(Magnitude(v, signed), base, upper), zeros, width)
  }

  // ---------------------------------------------------------------- reading back

  function SkipSpaces(s: string): string {
    if s != "" && s[0] == ' ' then SkipSpaces(s[1..]) else s
  }

  function Signed(negative: bool, n: int): int { if negative then -n else n }

  /** Spaces, then perhaps a minus sign, then digits. */
  function Read(s: string, base: Base): int {
    var t := SkipSpaces(s);
    var negative := t != "" && t[0] == '-';
    Signed(negative, Value(if negative then t[1..] else t, base))
  }

  lemma {:induction false} SpacesSkipped(r: int, t: string)
    requires t != "" && t[0] != ' '
    ensures SkipSpaces(Rep(' ', r) + t) == t
    decreases r
  {
    var s := Rep(' ', r) + t;
    if r > 0 {
      SpacesSkipped(r - 1, t);
      assert s[1..] == Rep(' ', r - 1) + t;
    } else {
      assert s == t;
    }
  }

  lemma {:induction false} ZerosMeanNothing(r: int, digits: string, base: Base)
    ensures Value(Rep('0', r) + digits, base) == Value(digits, base)
    decreases (if r > 0 then r else 0) + |digits|
  {
    var s := Rep('0', r) + digits;
    if digits != "" {
      var n := |digits| - 1;
      ZerosMeanNothing(r, digits[..n], base);
      assert s[..|s| - 1] == Rep('0', r) + digits[..n];
    } else if r > 0 {
      RepEnds('0', r);
      ZerosMeanNothing(r - 1, "", base);
      assert s[..|s| - 1] == Rep('0', r - 1) + "";
    } else {
      assert s == digits;
    }
  }

  lemma {:induction false} RepEnds(c: char, r: nat)
    requires r > 0
    ensures Rep(c, r)[r - 1] == c && Rep(c, r)[..r - 1] == Rep(c, r - 1)
  {
    if r > 1 {
      RepEnds(c, r - 1);
      assert Rep(c, r)[..r - 1] == [c] + Rep(c, r - 1)[..r - 2];
    }
  }

  /** Every word, signed or not, in every base, padding and width, reads back as what it means. */
  lemma IntegerRoundTrip(v: nat, signed: bool, base: Base, upper: bool, zeros: bool, width: int)
    requires v < WORD
    ensures Read(IntText(v, signed, base, upper, zeros, width), base) == Meaning(v, signed)
  {
    var digits := Numeral(Magnitude(v, signed), base, upper);
    NumeralReadsBack(Magnitude(v, signed), base, upper);
    FieldReadsBack(Negative(v, signed), digits, zeros, width, base);
  }

  /** How a word is padded: a field with zeros begins with its sign, or with a digit, and has no spaces; any other
      field has spaces in front only, and no zeros beyond its numeral. */
  lemma FieldIsPadded(v: nat, signed: bool, base: Base, upper: bool, zeros: bool, width: int)
    requires v < WORD
    ensures var s := IntText(v, signed, base, upper, zeros, width);
      var bare := (if Meaning(v, signed) < 0 then "-" else "") + Numeral(Magnitude(v, signed), base, upper);
      if zeros then ' ' !in s && (s[0] == '-' <==> Meaning(v, signed) < 0) else SkipSpaces(s) == bare
  {
    var digits := Numeral(Magnitude(v, signed), base, upper);
    NumeralDigits(Magnitude(v, signed), base, upper);
    NoBlanks(digits, base, upper);
    hide Numeral, Rep;
    if zeros {
      ZerosPadded(Negative(v, signed), digits, width);
    } else {
      SpacesPadded(Negative(v, signed), digits, width);
    }
  }

  lemma NoBlanks(digits: string, base: Base, upper: bool)
    requires forall c :: c in digits ==> IsDigitOf(c, base, upper)
    ensures ' ' !in digits && '-' !in digits
  {
  }

  lemma ZerosPadded(negative: bool, digits: string, width: int)
    requires digits != "" && ' ' !in digits && '-' !in digits
    ensures var s := Field(negative, digits, true, width); ' ' !in s && (s[0] == '-' <==> negative)
  {
    var body := Rep('0', width - |digits| - if negative then 1 else 0) + digits;
    assert body[0] in body && '-' !in body;
  }

  lemma SpacesPadded(negative: bool, digits: string, width: int)
    requires digits != "" && ' ' !in digits
    ensures SkipSpaces(Field(negative, digits, false, width)) == (if negative then "-" else "") + digits
  {
    assert digits[0] in digits;
    var sign := if negative then "-" else "";
    SpacesSkipped(width - |digits| - |sign|, sign + digits);
  }

  lemma FieldReadsBack(negative: bool, digits: string, zeros: bool, width: int, base: Base)
    requires digits != "" && digits[0] != '-' && digits[0] != ' '
    ensures Read(Field(negative, digits, zeros, width), base) == Signed(negative, Value(digits, base))
  {
    hide Read, Value, Rep;
    var sign := if negative then "-" else "";
    var room := width - |digits| - |sign|;
    if zeros {
      ZerosMeanNothing(room, digits, base);
      ZerosStart(room, digits);
      ReadSigned(negative, 0, Rep('0', room) + digits, base);
    } else {
      ReadSigned(negative, room, digits, base);
    }
  }

  lemma ZerosStart(r: int, digits: string)
    requires digits != "" && digits[0] != '-' && digits[0] != ' '
    ensures var body := Rep('0', r) + digits; body[0] != '-' && body[0] != ' '
  {
  }

  lemma ReadSigned(negative: bool, r: int, body: string, base: Base)
    requires body != "" && body[0] != '-' && body[0] != ' '
    ensures var s := (if negative then "-" else "") + body;
      Read(Rep(' ', r) + s, base) == Signed(negative, Value(body, base)) && (r == 0 ==> Rep(' ', r) + s == s)
  {
    hide Value;
    var s := (if negative then "-" else "") + body;
    SpacesSkipped(r, s);
    assert negative ==> s[1..] == body;
    assert !negative ==> s == body;
    hide SkipSpaces;
  }

  // ---------------------------------------------------------------- the loops

  function Pow(base: Base, k: nat): (p: nat)
  {
    if k == 0 then 1 else Times(base, Pow(base, k - 1))
  }

  /** alt_log_repchar. */
  method RepChar(c: char, r0: int) returns (out: string)
    ensures out == Rep(c, r0)
  {
    var r := r0;
    out := "";
    while r > 0
      invariant out + Rep(c, r) == Rep(c, r0)
    {
      assert out + Rep(c, r) == out + [c] + Rep(c, r - 1);
      r := r - 1;
      out := out + [c];
    }
  }

  /** `y` is what `v` is when its lower places, worth `p`, are cut off. */
  ghost predicate Cut(v: nat, y: nat, p: nat) {
    Times(y, p) <= v < Times(y + 1, p)
  }

  lemma CutOnce(v: nat, y: nat, p: nat, base: Base)
    requires Cut(v, y, p)
    ensures Cut(v, Quot(y, base), Times(base, p))
    ensures y >= base ==> Times(base, p) <= v
  {
    hide Times, Quot, Rem;
    var x := Quot(y, base);
    Division(y, base);
    TimesLaws(x, base, p);
    TimesMono(Times(x, base), y, p);
    TimesLaws(x, 1, base);
    TimesLaws(x + 1, base, p);
    TimesLaws(1, 1, base);
    TimesMono(y + 1, Times(x + 1, base), p);
    if y >= base {
      TimesMono(base, y, p);
    }
  }

  /** The counting loop: how many digits, and the largest place value, which never overflows a word. */
  method CountDigits(v: nat, base: Base, ghost upper: bool) returns (digitCount: nat, p: nat, ghost k: nat)
    requires v < WORD
    ensures digitCount == |Numeral(v, base, upper)|
    ensures p == Pow(base, k) && (p <= v || p == 1) && v < Times(base, p) && p < WORD
  {
    hide Times, Quot, Rem, Cut;
    var vShrink := Quot(v, base);
    ghost var y := v;
    p, digitCount, k := 1, 1, 0;
    CutInitially(v);
    while vShrink > 0
      invariant vShrink == Quot(y, base) && Cut(v, y, p)
      invariant digitCount - 1 + |Numeral(y, base, upper)| == |Numeral(v, base, upper)|
      invariant p == Pow(base, k) && (p <= v || p == 1)
      decreases vShrink
    {
      CutOnce(v, y, p, base);
      digitCount := digitCount + 1;
      TimesLaws(p, base, 0);
      Fits(Times(p, base));
      p := Times(p, base) % WORD;
      y := vShrink;
      k := k + 1;
      vShrink := Quot(vShrink, base);
    }
    CutLast(v, y, p, base);
  }

  lemma CutInitially(v: nat)
    ensures Cut(v, v, 1)
  {
  }

  lemma Fits(x: nat)
    ensures x < WORD ==> x % WORD == x
  {
  }

  lemma CutLast(v: nat, y: nat, p: nat, base: Base)
    requires Cut(v, y, p) && y < base
    ensures v < Times(base, p)
  {
    hide Times;
    TimesMono(y + 1, base, p);
  }

  /** The digits above place value `p` make the number `q`, what is left is `v`. */
  ghost predicate Place(total: nat, q: nat, v: nat, p: nat, base: Base) {
    total == Times(q, Times(base, p)) + v && v < Times(base, p)
  }

  lemma PlaceStep(total: nat, q: nat, v: nat, p: nat, base: Base)
    requires p > 0 && Place(total, q, v, p, base)
    ensures Quot(v, p) < base
    ensures total == Times(Times(q, base) + Quot(v, p), p) + Rem(v, p)
  {
    hide Times, Quot, Rem;
    var d := Quot(v, p);
    Division(v, p);
    if d >= base {
      TimesMono(base, d, p);
      assert false;
    }
    TimesLaws(q, base, p);
    TimesLaws(Times(q, base), d, p);
  }

  /** The printing loop: division by falling place values yields the usual numeral. */
  method PrintDigits(v0: nat, p0: nat, base: Base, upper: bool, ghost k0: nat) returns (out: string)
    requires p0 == Pow(base, k0) && (p0 <= v0 || p0 == 1) && v0 < Times(base, p0)
    ensures out == Numeral(v0, base, upper)
  {
    hide Times, Quot, Rem, Place, Numeral, Pow;
    var v: nat, p: nat := v0, p0;
    ghost var q: nat, k: nat := 0, k0;
    out := "";
    PowPositive(base, k);
    PlaceInitially(v0, p, base);
    while p > 0
      invariant p > 0 ==> p == Pow(base, k) && Place(v0, q, v, p, base)
      invariant p == 0 ==> q == v0
      invariant if q == 0 && p > 0 then out == "" && (p <= v0 || p == 1) else out == Numeral(q, base, upper)
      decreases p
    {
      PlaceDown(v0, q, v, p, base, k);
      var d := Quot(v, p);
      NextDigit(q, d, base, upper);
      out := out + [DigitChar(d, upper)];
      v := Rem(v, p);
      q := Times(q, base) + d;
      if k > 0 {
        k := k - 1;
      }
      p := Quot(p, base);
    }
  }

  lemma PlaceInitially(v: nat, p: nat, base: Base)
    requires v < Times(base, p)
    ensures Place(v, 0, v, p, base)
  {
    TimesLaws(0, 0, Times(base, p));
  }

  /** One round of the printing loop. */
  lemma PlaceDown(total: nat, q: nat, v: nat, p: nat, base: Base, k: nat)
    requires p == Pow(base, k) && p > 0 && Place(total, q, v, p, base)
    ensures Quot(v, p) < base
    ensures k == 0 ==> p == 1 && Quot(p, base) == 0 && Times(q, base) + Quot(v, p) == total
    ensures k > 0 ==> var q', p' := Times(q, base) + Quot(v, p), Quot(p, base);
      && p > 1 && p' == Pow(base, k - 1) && 0 < p' < p && Place(total, q', Rem(v, p), p', base)
      && (q > 0 || p <= total ==> q' > 0)
  {
    hide Times, Quot, Rem;
    PlaceStep(total, q, v, p, base);
    var q' := Times(q, base) + Quot(v, p);
    if k == 0 {
      TimesLaws(1, q', q');
    } else {
      PowDown(base, k);
      TimesLaws(0, 0, p);
      TimesLaws(1, 1, base);
      if q > 0 {
        TimesMono(1, q, base);
      }
    }
  }

  lemma NextDigit(q: nat, d: nat, base: Base, upper: bool)
    requires d < base
    ensures Numeral(Times(q, base) + d, base, upper)
      == (if q == 0 then "" else Numeral(q, base, upper)) + [DigitChar(d, upper)]
  {
    hide Times, Quot, Rem;
    TimesLaws(1, 1, base);
    TimesLaws(0, 0, base);
    if q > 0 {
      TimesMono(1, q, base);
      Unique(q, d, base);
    }
  }

  lemma {:induction false} PowPositive(base: Base, k: nat)
    ensures Pow(base, k) > 0
  {
    hide Times;
    if k == 0 {
    } else {
      PowPositive(base, k - 1);
      TimesMono(1, base, Pow(base, k - 1));
      TimesLaws(1, 1, Pow(base, k - 1));
    }
  }

  lemma PowDown(base: Base, k: nat)
    requires k > 0
    ensures Quot(Pow(base, k), base) == Pow(base, k - 1) && Times(base, Pow(base, k - 1)) == Pow(base, k)
    ensures 0 < Pow(base, k - 1) < Pow(base, k)
  {
    hide Times, Quot, Rem;
    var p := Pow(base, k - 1);
    PowPositive(base, k - 1);
    Unique(p, 0, base);
    TimesLaws(p, base, 0);
    TimesLaws(1, 1, p);
    TimesMono(1 + 1, base, p);
  }

  /** The integer branch of alt_log_private_printf. */
  method PrintInteger(word: nat, signed: bool, base: Base, upper: bool, zeros: bool, width: int)
    returns (out: string)
    requires word < WORD
    ensures out == IntText(word, signed, base, upper, zeros, width)
  {
    hide Numeral, Field, Rep;
    var v := word;
    var sign := false;
    if signed && v >= SIGN {
      v := (WORD - 1 - v + 1) % WORD;
      sign := true;
    }
    var digitCount, p;
    ghost var k;
    digitCount, p, k := CountDigits(v, base, upper);
    var before := width - digitCount;
    if zeros {
      out := "";
      if sign {
        out := out + "-";
        before := before - 1;
      }
      var pad := RepChar('0', before);
      out := out + pad;
    } else {
      if sign {
        before := before - 1;
      }
      out := RepChar(' ', before);
      if sign {
        out := out + "-";
      }
    }
    var digits := PrintDigits(v, p, base, upper, k);
    FieldParts(sign, digits, zeros, width);
    out := out + digits;
  }

  lemma FieldParts(negative: bool, digits: string, zeros: bool, width: int)
    ensures var sign, room := if negative then "-" else "", width - |digits| - if negative then 1 else 0;
      Field(negative, digits, zeros, width)
        == (if zeros then sign + Rep('0', room) else Rep(' ', room) + sign) + digits
  {
    var sign, room := if negative then "-" else "", width - |digits| - if negative then 1 else 0;
    if zeros {
      assert sign + (Rep('0', room) + digits) == (sign + Rep('0', room)) + digits;
    } else {
      assert Rep(' ', room) + (sign + digits) == (Rep(' ', room) + sign) + digits;
    }
  }
}
