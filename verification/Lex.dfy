/** Byte-wise lexicographic order on strings: what the database's text comparison and Go's `<` on strings both use; digits. */
module Lex {

  function Digit(d: nat): char
    requires d < 10
  {
    '0' + d as char
  }

  function Pow10(w: nat): nat {
    if w == 0 then 1 else 10 * Pow10(w - 1)
  }

  predicate Less(a: string, b: string) {
    b != [] && (a == [] || a[0] < b[0] || (a[0] == b[0] && Less(a[1..], b[1..])))
  }

  lemma {:induction false} LessIrreflexive(a: string)
    ensures !Less(a, a)
  {
    if a == [] {
    } else {
      LessIrreflexive(a[1..]);
    }
  }

  lemma {:induction false} LessTransitive(a: string, b: string, c: string)
    requires Less(a, b) && Less(b, c)
    ensures Less(a, c)
  {
    if a != [] && a[0] == b[0] == c[0] { LessTransitive(a[1..], b[1..], c[1..]); }
  }

  lemma {:induction false} LessTotal(a: string, b: string)
    ensures a == b || Less(a, b) || Less(b, a)
  {
    if a != [] && b != [] && a[0] == b[0] {
      LessTotal(a[1..], b[1..]);
      if a[1..] == b[1..] { assert a == [a[0]] + a[1..] && b == [b[0]] + b[1..]; }
    }
  }

  lemma LessAsymmetric(a: string, b: string)
    requires Less(a, b)
    ensures !Less(b, a) && a != b
  {
    LessIrreflexive(a);
    if Less(b, a) { LessTransitive(a, b, a); }
  }

  /** Texts that start with equally long fields compare by the fields first. */
  lemma {:induction false} LessByField(x: string, y: string, s: string, t: string)
    requires |x| == |y|
    ensures Less(x + s, y + t) <==> Less(x, y) || (x == y && Less(s, t))
  {
    if x == [] {
      assert x + s == s && y + t == t;
    } else {
      assert (x + s)[1..] == x[1..] + s && (y + t)[1..] == y[1..] + t;
      assert x == [x[0]] + x[1..] && y == [y[0]] + y[1..];
      LessByField(x[1..], y[1..], s, t);
    }
  }
}
