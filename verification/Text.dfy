/** JavaScript string order: strings compare by their UTF-16 code units. */
module Text {
  import opened Sorting

  function Units(c: char): (u: seq<int>)
    ensures |u| == 1 || |u| == 2
  {
    var p := c as int;
    if p < 0x1_0000 then [p] else [0xD800 + (p - 0x1_0000) / 0x400, 0xDC00 + (p - 0x1_0000) % 0x400]
  }

  function Utf16(s: string): seq<int> {
    if s == "" then [] else Units(s[0]) + Utf16(s[1..])
  }

  predicate LeqUnits(a: seq<int>, b: seq<int>) {
    a == [] || (b != [] && (a[0] < b[0] || (a[0] == b[0] && LeqUnits(a[1..], b[1..]))))
  }

  /** `a <= b` on JavaScript strings. */
  predicate LeqText(a: string, b: string) {
    LeqUnits(Utf16(a), Utf16(b))
  }

  lemma {:induction false} LeqUnitsIsTotalOrder(a: seq<int>, b: seq<int>, c: seq<int>)
    ensures LeqUnits(a, b) || LeqUnits(b, a)
    ensures LeqUnits(a, b) && LeqUnits(b, a) ==> a == b
    ensures LeqUnits(a, b) && LeqUnits(b, c) ==> LeqUnits(a, c)
    decreases |a| + |b| + |c|
  {
    if a != [] && b != [] {
      LeqUnitsIsTotalOrder(a[1..], b[1..], if c == [] then [] else c[1..]);
      assert a == [a[0]] + a[1..] && b == [b[0]] + b[1..];
    }
  }

  lemma {:induction false} UnitsDetermineChar(c: char, d: char, x: seq<int>, y: seq<int>)
    requires Units(c) + x == Units(d) + y
    ensures c == d && x == y
  {
    var u, v := Units(c), Units(d);
    assert (u + x)[0] == u[0] && (v + y)[0] == v[0];
    assert |u| == |v|;
    if |u| == 2 {
      assert (u + x)[1] == u[1] && (v + y)[1] == v[1];
    }
    assert c as int == d as int;
    assert x == (u + x)[|u|..] && y == (v + y)[|v|..];
  }

  lemma {:induction false} Utf16IsInjective(a: string, b: string)
    requires Utf16(a) == Utf16(b)
    ensures a == b
  {
    if a != "" && b != "" {
      UnitsDetermineChar(a[0], b[0], Utf16(a[1..]), Utf16(b[1..]));
      Utf16IsInjective(a[1..], b[1..]);
      assert a == [a[0]] + a[1..] && b == [b[0]] + b[1..];
    }
  }

  lemma TextOrderIsTotal()
    ensures TotalPreorder(LeqText)
    ensures forall a, b :: LeqText(a, b) && LeqText(b, a) ==> a == b
  {
    forall a, b, c
      ensures LeqText(a, b) || LeqText(b, a)
      ensures LeqText(a, b) && LeqText(b, c) ==> LeqText(a, c)
      ensures LeqText(a, b) && LeqText(b, a) ==> a == b
    {
      LeqUnitsIsTotalOrder(Utf16(a), Utf16(b), Utf16(c));
      if Utf16(a) == Utf16(b) {
        Utf16IsInjective(a, b);
      }
    }
  }

  lemma {:induction false} CommonPrefixCancels(p: seq<int>, a: seq<int>, b: seq<int>)
    ensures LeqUnits(p + a, p + b) <==> LeqUnits(a, b)
  {
    if p == [] {
      assert p + a == a && p + b == b;
    } else {
      CommonPrefixCancels(p[1..], a, b);
      assert (p + a)[1..] == p[1..] + a && (p + b)[1..] == p[1..] + b;
    }
  }

  lemma Utf16Cons(c: char, s: string)
    ensures Utf16([c] + s) == Units(c) + Utf16(s)
  {
  }

  lemma {:induction false} Utf16OfConcat(a: string, b: string)
    ensures Utf16(a + b) == Utf16(a) + Utf16(b)
  {
    if a == "" {
      assert a + b == b;
    } else {
      Utf16OfConcat(a[1..], b);
      assert a + b == [a[0]] + (a[1..] + b);
      Utf16Cons(a[0], a[1..] + b);
      Reassociate(Units(a[0]), Utf16(a[1..]), Utf16(b));
    }
  }

  /**
   * `compareCodepoints` promises code point order but compares code units: at the
   * first difference it is right exactly unless the smaller character lies in
   * U+E000..U+FFFF and the larger beyond U+FFFF.
   */
  lemma CodeUnitOrderIsCodePointOrder(p: string, c: char, d: char, x: string, y: string)
    requires c < d
    ensures LeqText(p + [c] + x, p + [d] + y) <==> !(0xE000 <= c as int <= 0xFFFF && 0x1_0000 <= d as int)
  {
    Utf16At(p, c, x);
    Utf16At(p, d, y);
    CommonPrefixCancels(Utf16(p), Units(c) + Utf16(x), Units(d) + Utf16(y));
    UnitsCompare(c, d, Utf16(x), Utf16(y));
  }

  lemma Utf16At(p: string, c: char, x: string)
    ensures Utf16(p + [c] + x) == Utf16(p) + (Units(c) + Utf16(x))
  {
    assert p + [c] + x == p + ([c] + x);
    Utf16OfConcat(p, [c] + x);
    Utf16Cons(c, x);
  }

  lemma UnitsCompare(c: char, d: char, x: seq<int>, y: seq<int>)
    requires c < d
    ensures LeqUnits(Units(c) + x, Units(d) + y) <==> !(0xE000 <= c as int <= 0xFFFF && 0x1_0000 <= d as int)
  {
  }

  /** A proper beginning of a string comes before it. */
  lemma PrefixComesFirst(p: string, c: char, x: string)
    ensures LeqText(p, p + [c] + x) && !LeqText(p + [c] + x, p)
  {
    Utf16At(p, c, x);
    assert Utf16(p) + [] == Utf16(p);
    CommonPrefixCancels(Utf16(p), [], Units(c) + Utf16(x));
    CommonPrefixCancels(Utf16(p), Units(c) + Utf16(x), []);
  }
}
