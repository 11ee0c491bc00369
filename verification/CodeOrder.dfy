/** The order of JavaScript's `<` and `>` on strings. */
module CodeOrder {
  import opened Sorting

  /**
   * The rank of a character in the order of UTF-16 code units: characters beyond U+FFFF begin with
   * a surrogate, which sorts before U+E000 to U+FFFF.
   */
  function UnitRank(c: char): int {
    if 0xE000 <= c as int < 0x10000 then c as int + 0x110000 else c as int
  }

  /** `left > right` on strings: code unit by code unit, a longer string after its prefixes. */
  predicate CodeAfter(left: string, right: string) {
    if left == "" then false
    else if right == "" then true
    else if left[0] == right[0] then CodeAfter(left[1..], right[1..])
    else UnitRank(left[0]) > UnitRank(right[0])
  }

  lemma {:induction false} CodeAfterTransitive(x: string, y: string, z: string)
    requires CodeAfter(x, y) && CodeAfter(y, z)
    ensures CodeAfter(x, z)
  {
    if z == "" || !(x[0] == y[0] == z[0]) {
    } else {
      CodeAfterTransitive(x[1..], y[1..], z[1..]);
    }
  }

  lemma {:induction false} CodeAfterTotal(x: string, y: string)
    ensures !CodeAfter(x, x)
    ensures x != y ==> CodeAfter(x, y) || CodeAfter(y, x)
  {
    if x == "" {
    } else {
      CodeAfterTotal(x[1..], if y == "" then "" else y[1..]);
      if y != "" { assert x == [x[0]] + x[1..] && y == [y[0]] + y[1..]; }
    }
  }

  function CodeLe(left: string, right: string): bool {
    !CodeAfter(left, right)
  }

  lemma CodeLeIsOrder()
    ensures TotalOrder(CodeLe)
  {
    forall x, y ensures (CodeLe(x, y) || CodeLe(y, x)) && (CodeLe(x, y) && CodeLe(y, x) ==> x == y) {
      CodeAfterTotal(x, y);
      if CodeAfter(x, y) && CodeAfter(y, x) {
        CodeAfterTransitive(x, y, x);
        assert false;
      }
    }
    forall x, y, z | CodeLe(x, y) && CodeLe(y, z) ensures CodeLe(x, z) {
      if CodeAfter(x, z) {
        CodeAfterTotal(y, z);
        if y != z { CodeAfterTransitive(x, z, y); }
      }
    }
  }

  // ---------- the order is that of the UTF-16 code units ----------

  /** The code units of one character. */
  function Units(c: char): (units: seq<int>)
    ensures 1 <= |units| <= 2
  {
    var n := c as int;
    if n < 0x10000 then [n] else [0xD800 + (n - 0x10000) / 0x400, 0xDC00 + (n - 0x10000) % 0x400]
  }

  function AllUnits(s: string): seq<int> {
    if s == "" then [] else Units(s[0]) + AllUnits(s[1..])
  }

  predicate UnitsAfter(left: seq<int>, right: seq<int>) {
    if left == [] then false
    else if right == [] then true
    else if left[0] == right[0] then UnitsAfter(left[1..], right[1..])
    else left[0] > right[0]
  }

  lemma {:induction false} UnitsAfterFront(front: seq<int>, left: seq<int>, right: seq<int>)
    ensures UnitsAfter(front + left, front + right) <==> UnitsAfter(left, right)
  {
    if front == [] {
      assert front + left == left && front + right == right;
    } else {
      assert (front + left)[1..] == front[1..] + left && (front + right)[1..] == front[1..] + right;
      UnitsAfterFront(front[1..], left, right);
    }
  }

  /** Different characters are told apart by their units, whatever follows. */
  lemma UnitsTellApart(a: char, b: char, left: seq<int>, right: seq<int>)
    requires a != b
    ensures UnitsAfter(Units(a) + left, Units(b) + right) <==> UnitRank(a) > UnitRank(b)
  {
    var l, r := Units(a) + left, Units(b) + right;
    assert l[0] == Units(a)[0] && r[0] == Units(b)[0];
    if l[0] == r[0] {
      assert l[1..][0] == Units(a)[1] && r[1..][0] == Units(b)[1];
    }
  }

  lemma {:induction false} CodeAfterIsUnitOrder(left: string, right: string)
    ensures CodeAfter(left, right) <==> UnitsAfter(AllUnits(left), AllUnits(right))
  {
    if left == "" || right == "" {
    } else if left[0] == right[0] {
      CodeAfterIsUnitOrder(left[1..], right[1..]);
      UnitsAfterFront(Units(left[0]), AllUnits(left[1..]), AllUnits(right[1..]));
    } else {
      UnitsTellApart(left[0], right[0], AllUnits(left[1..]), AllUnits(right[1..]));
    }
  }
}
