/**
  Products and quotients of variables, with the few laws the other modules need, so that nonlinear
  arithmetic stays in here.
 */
module Arithmetic {
  function Times(a: nat, b: nat): nat { a * b }

  function Quot(a: nat, b: nat): (q: nat)
    requires b > 0
    ensures b > 1 ==> (q == 0 <==> a < b) && (a > 0 ==> q < a)
  {
    QuotShrinks(a, b);
    a / b
  }

  lemma QuotShrinks(a: nat, b: nat)
    requires b > 0
    ensures b > 1 ==> (a / b == 0 <==> a < b) && (a > 0 ==> a / b < a)
  {
    var q, r := a / b, a % b;
    assert a == q * b + r;
    if b > 1 && q > 0 {
      assert Times(q, b) >= Times(q, 2) && Times(q, b) >= Times(1, b) by {
        TimesMono(2, b, q);
        TimesMono(1, q, b);
      }
    }
  }

  function Rem(a: nat, b: nat): (r: nat)
    requires b > 0
    ensures r < b
  {
    a % b
  }

  lemma Division(a: nat, b: nat)
    requires b > 0
    ensures a == Times(Quot(a, b), b) + Rem(a, b)
  {
  }

  lemma Unique(q: nat, d: nat, b: nat)
    requires d < b
    ensures Quot(Times(q, b) + d, b) == q && Rem(Times(q, b) + d, b) == d
  {
    var a := q * b + d;
    var q', d' := a / b, a % b;
    assert (q - q') * b == d' - d;
    if q > q' {
      TimesMono(1, q - q', b);
    } else if q < q' {
      TimesMono(1, q' - q, b);
    }
  }

  lemma TimesMono(a: nat, b: nat, p: nat)
    requires a <= b
    ensures Times(a, p) <= Times(b, p)
  {
  }

  lemma TimesLaws(a: nat, b: nat, p: nat)
    ensures Times(a, Times(b, p)) == Times(Times(a, b), p)
    ensures Times(a + b, p) == Times(a, p) + Times(b, p)
    ensures Times(a, b) == Times(b, a) && Times(1, p) == p && Times(0, p) == 0
  {
  }
}
