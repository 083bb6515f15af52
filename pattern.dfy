/**
 * The range expansion of org.jenetics.util.CharSeq: expand(a, b),
 * expand(pattern) and the factories of(pattern) and of(a, b).
 */
module CharPatterns {
  import opened Wrappers
  import opened CharSeqs

  /** The escape character `\\`. */
  const BACKSLASH: Char16 := 0x5C
  /** The range operator `-`. */
  const DASH: Char16 := 0x2D
  /** '\\uffff', the largest char. */
  const MAX_CHAR: Char16 := 0xFFFF

  /** `(char) x`: the low 16 bits of an int. */
  function ToChar(x: int): Char16
  {
    (x % 0x1_0000) as Char16
  }

  /** A char in range is its own cast. */
  lemma ToCharInRange(x: int)
    requires 0 <= x < 0x1_0000
    ensures ToChar(x) as int == x
  {
  }

  // ---------------------------------------------------------------------
  // expand(a, b)

  /**
   * The loops of expand(a, b) stop: counting up, `c <= b` turns false only
   * if `b` is below '\\uffff'; counting down, `c >= b` only if `b` is above '\\u0000'.
   */
  predicate RangeTerminates(a: Char16, b: Char16)
  {
    (a < b ==> b < MAX_CHAR) && (a > b ==> b > 0)
  }

  /** The characters from `lo` up to `hi` inclusive. */
  function Ascent(lo: int, hi: int): seq<Char16>
    requires 0 <= lo && hi < 0x1_0000
    decreases hi - lo
  {
    if lo > hi then [] else [lo as Char16] + Ascent(lo + 1, hi)
  }

  /** The characters from `hi` down to `lo` inclusive. */
  function Descent(hi: int, lo: int): seq<Char16>
    requires hi < 0x1_0000 && 0 <= lo
    decreases hi - lo
  {
    if hi < lo then [] else [hi as Char16] + Descent(hi - 1, lo)
  }

  /** The characters from `a` to `b` inclusive, up or down; nothing when they are equal. */
  function Range(a: Char16, b: Char16): seq<Char16>
  {
    if a < b then Ascent(a as int, b as int)
    else if a > b then Descent(a as int, b as int)
    else []
  }

  /** The `i`-th character counting up from `lo` is `lo + i`. */
  lemma {:induction false} AscentAt(lo: int, hi: int)
    requires 0 <= lo <= hi + 1 && hi < 0x1_0000
    ensures |Ascent(lo, hi)| == hi - lo + 1
    ensures forall i :: 0 <= i < |Ascent(lo, hi)| ==> Ascent(lo, hi)[i] as int == lo + i
    decreases hi - lo
  {
    if lo <= hi {
      AscentAt(lo + 1, hi);
    }
  }

  /** The `i`-th character counting down from `hi` is `hi - i`. */
  lemma {:induction false} DescentAt(hi: int, lo: int)
    requires 0 <= lo <= hi + 1 && hi < 0x1_0000
    ensures |Descent(hi, lo)| == hi - lo + 1
    ensures forall i :: 0 <= i < |Descent(hi, lo)| ==> Descent(hi, lo)[i] as int == hi - i
    decreases hi - lo
  {
    if lo <= hi {
      DescentAt(hi - 1, lo);
    }
  }

  /** The `i`-th character of a range is `a + i` counting up and `a - i` counting down. */
  lemma RangeAt(a: Char16, b: Char16)
    ensures |Range(a, b)| == if a == b then 0 else (if a < b then b - a else a - b) as int + 1
    ensures forall i :: 0 <= i < |Range(a, b)| ==> Range(a, b)[i] as int == if a < b then a as int + i else a as int - i
  {
    if a < b {
      AscentAt(a as int, b as int);
    } else if a > b {
      DescentAt(a as int, b as int);
    }
  }

  /** Moving the next character from the pending part to the output keeps the whole. */
  lemma MoveToOutput(out: seq<Char16>, c: Char16, rest: seq<Char16>, whole: seq<Char16>)
    requires out + ([c] + rest) == whole
    ensures (out + [c]) + rest == whole
  {
    assert out + ([c] + rest) == (out + [c]) + rest;
  }

  /** expand(a, b): appends `c` and steps it by `(char)(c + 1)` or `(char)(c - 1)` until it passes `b`. */
  method ExpandRange(a: Char16, b: Char16) returns (out: seq<Char16>)
    requires RangeTerminates(a, b)
    ensures out == Range(a, b)
  {
    out := [];
    if a < b {
      var c := a;
      while c <= b
        invariant a <= c && c as int <= b as int + 1
        invariant out + Ascent(c as int, b as int) == Range(a, b)
        decreases b as int + 1 - c as int
      {
        assert Ascent(c as int, b as int) == [c] + Ascent(c as int + 1, b as int);
        MoveToOutput(out, c, Ascent(c as int + 1, b as int), Range(a, b));
        out := out + [c];
        ToCharInRange(c as int + 1);
        c := ToChar(c as int + 1);
      }
      assert out + [] == out;
    } else if a > b {
      var c := a;
      while c >= b
        invariant c <= a && b as int - 1 <= c as int
        invariant out + Descent(c as int, b as int) == Range(a, b)
        decreases c as int - b as int + 1
      {
        assert Descent(c as int, b as int) == [c] + Descent(c as int - 1, b as int);
        MoveToOutput(out, c, Descent(c as int - 1, b as int), Range(a, b));
        out := out + [c];
        ToCharInRange(c as int - 1);
        c := ToChar(c as int - 1);
      }
      assert out + [] == out;
    }
  }

  /** Between distinct ends, a range holds exactly the characters between them, each once. */
  lemma RangeContents(a: Char16, b: Char16)
    requires a != b
    ensures |Range(a, b)| == (if a < b then b - a else a - b) as int + 1
    ensures forall c :: c in Range(a, b) <==> (a <= c <= b || b <= c <= a)
    ensures a < b ==> StrictlyAscending(Range(a, b))
  {
    var r := Range(a, b);
    RangeAt(a, b);
    forall c | a <= c <= b || b <= c <= a ensures c in r {
      if a < b {
        assert r[c as int - a as int] == c;
      } else {
        assert r[a as int - c as int] == c;
      }
    }
  }

  /** Counting down from `b` to `a` visits the characters of `a` to `b` in reverse. */
  lemma RangeReversed(a: Char16, b: Char16)
    ensures |Range(b, a)| == |Range(a, b)|
    ensures forall i :: 0 <= i < |Range(a, b)| ==> Range(b, a)[i] == Range(a, b)[|Range(a, b)| - 1 - i]
  {
    RangeAt(a, b);
    RangeAt(b, a);
  }

  /** A range from a character to itself is empty: "a-a" expands to nothing. */
  lemma RangeOfOneIsEmpty(a: Char16)
    ensures Range(a, a) == []
  {
  }

  // ---------------------------------------------------------------------
  // expand(pattern)

  /** `s` in front of a successful expansion; a failure passes through. */
  function Prepend(s: seq<Char16>, r: Result<seq<Char16>, Failure>): Result<seq<Char16>, Failure>
  {
    if r.Ok? then Ok(s + r.value) else r
  }

  /**
   * The expansion of `p` from position `i`, following the loop of
   * expand(pattern): an escaped character is copied; a `-` between two
   * characters inserts their range and skips its right end, and throws
   * elsewhere; a character followed by `-` is left to the range.
   */
  function ExpandFrom(p: seq<Char16>, i: nat): Result<seq<Char16>, Failure>
    decreases |p| - i
  {
    if i >= |p| then Ok([])
    else if p[i] == BACKSLASH then
      if i + 1 < |p| then Prepend([p[i + 1]], ExpandFrom(p, i + 2)) else Ok([])
    else if p[i] == DASH then
      if i == 0 || i >= |p| - 1 then Err(DanglingRangeOperator(|p| - 1))
      else Prepend(Range(p[i - 1], p[i + 1]), ExpandFrom(p, i + 2))
    else if i + 1 == |p| || p[i + 1] != DASH then Prepend([p[i]], ExpandFrom(p, i + 1))
    else ExpandFrom(p, i + 1)
  }

  /** Every range that expand(pattern) reaches from `i` terminates. */
  predicate ExpandHalts(p: seq<Char16>, i: nat)
    decreases |p| - i
  {
    if i >= |p| then true
    else if p[i] == BACKSLASH then ExpandHalts(p, i + 2)
    else if p[i] == DASH then
      i == 0 || i >= |p| - 1 || (RangeTerminates(p[i - 1], p[i + 1]) && ExpandHalts(p, i + 2))
    else ExpandHalts(p, i + 1)
  }

  /** The output so far goes in front of the rest of the expansion. */
  lemma PrependTwice(s: seq<Char16>, t: seq<Char16>, r: Result<seq<Char16>, Failure>)
    ensures Prepend(s, Prepend(t, r)) == Prepend(s + t, r)
  {
    if r.Ok? {
      assert s + (t + r.value) == (s + t) + r.value;
    }
  }

  /** Nothing in front changes nothing. */
  lemma PrependNothing(r: Result<seq<Char16>, Failure>)
    ensures Prepend([], r) == r
  {
    if r.Ok? {
      assert [] + r.value == r.value;
    }
  }

  /** expand(pattern): the Java loop appending to a StringBuilder. */
  method Expand(pattern: seq<Char16>) returns (r: Result<seq<Char16>, Failure>)
    requires ExpandHalts(pattern, 0)
    ensures r == ExpandFrom(pattern, 0)
  {
    var out: seq<Char16> := [];
    var i := 0;
    var n := |pattern|;
    PrependNothing(ExpandFrom(pattern, 0));
    while i < n
      invariant 0 <= i <= n + 1
      invariant ExpandHalts(pattern, i)
      invariant ExpandFrom(pattern, 0) == Prepend(out, ExpandFrom(pattern, i))
      decreases n + 1 - i
    {
      if pattern[i] == BACKSLASH {
        if i + 1 < n {
          PrependTwice(out, [pattern[i + 1]], ExpandFrom(pattern, i + 2));
        }
        i := i + 1;
        if i < n {
          out := out + [pattern[i]];
        }
      } else if pattern[i] == DASH {
        if i <= 0 || i >= n - 1 {
          return Err(DanglingRangeOperator(n - 1));
        }
        var range := ExpandRange(pattern[i - 1], pattern[i + 1]);
        PrependTwice(out, range, ExpandFrom(pattern, i + 2));
        out := out + range;
        i := i + 1;
      } else if i + 1 == n || pattern[i + 1] != DASH {
        PrependTwice(out, [pattern[i]], ExpandFrom(pattern, i + 1));
        out := out + [pattern[i]];
      }
      i := i + 1;
    }
    assert ExpandFrom(pattern, i) == Ok([]);
    assert out + [] == out;
    r := Ok(out);
  }

  /** A `-` in front of a pattern throws. */
  lemma LeadingDashThrows(p: seq<Char16>)
    requires p != [] && p[0] == DASH
    ensures ExpandFrom(p, 0) == Err(DanglingRangeOperator(|p| - 1))
  {
  }

  /** A character that neither escapes nor denotes a range. */
  predicate Plain(c: Char16)
  {
    c != BACKSLASH && c != DASH
  }

  /** A `-` closing a pattern of plain characters throws. */
  lemma TrailingDashThrows(q: seq<Char16>)
    requires forall k :: 0 <= k < |q| ==> Plain(q[k])
    ensures ExpandFrom(q + [DASH], 0) == Err(DanglingRangeOperator(|q|))
  {
    TrailingDashThrowsFrom(q, 0);
  }

  lemma {:induction false} TrailingDashThrowsFrom(q: seq<Char16>, i: nat)
    requires i <= |q|
    requires forall k :: 0 <= k < |q| ==> Plain(q[k])
    ensures ExpandFrom(q + [DASH], i) == Err(DanglingRangeOperator(|q|))
    decreases |q| - i
  {
    var p := q + [DASH];
    assert p[|q|] == DASH;
    if i < |q| {
      assert p[i] == q[i];
      TrailingDashThrowsFrom(q, i + 1);
    }
  }

  // ---------------------------------------------------------------------
  // The pattern grammar: items that render to a pattern and the characters they mean.

  /** A pattern item: a character, an escaped character, or a range `from-to`. */
  datatype Item = Literal(c: Char16) | Escaped(c: Char16) | RangeOf(from: Char16, to: Char16)

  predicate WellFormedItem(it: Item)
  {
    match it
    case Literal(c) => Plain(c)
    case Escaped(_) => true
    case RangeOf(a, b) => Plain(a) && RangeTerminates(a, b)
  }

  predicate WellFormed(items: seq<Item>)
  {
    forall k :: 0 <= k < |items| ==> WellFormedItem(items[k])
  }

  /** How an item is written in a pattern. */
  function RenderItem(it: Item): seq<Char16>
  {
    match it
    case Literal(c) => [c]
    case Escaped(c) => [BACKSLASH, c]
    case RangeOf(a, b) => [a, DASH, b]
  }

  function Render(items: seq<Item>): seq<Char16>
  {
    if items == [] then [] else RenderItem(items[0]) + Render(items[1..])
  }

  /** The characters an item stands for. */
  function MeaningItem(it: Item): seq<Char16>
  {
    match it
    case Literal(c) => [c]
    case Escaped(c) => [c]
    case RangeOf(a, b) => Range(a, b)
  }

  function Meaning(items: seq<Item>): seq<Char16>
  {
    if items == [] then [] else MeaningItem(items[0]) + Meaning(items[1..])
  }

  /** `p` spells the item `it` from position `i` on. */
  predicate ItemAt(p: seq<Char16>, i: nat, it: Item)
  {
    match it
    case Literal(c) => i < |p| && p[i] == c
    case Escaped(c) => i + 1 < |p| && p[i] == BACKSLASH && p[i + 1] == c
    case RangeOf(a, b) => i + 2 < |p| && p[i] == a && p[i + 1] == DASH && p[i + 2] == b
  }

  /** One well-formed item, not followed by `-`, expands to its meaning. */
  lemma ExpandItem(p: seq<Char16>, i: nat, it: Item)
    requires WellFormedItem(it) && ItemAt(p, i, it)
    requires i + |RenderItem(it)| == |p| || p[i + |RenderItem(it)|] != DASH
    ensures ExpandFrom(p, i) == Prepend(MeaningItem(it), ExpandFrom(p, i + |RenderItem(it)|))
    ensures ExpandHalts(p, i + |RenderItem(it)|) ==> ExpandHalts(p, i)
  {
    match it
    case Literal(c) =>
      ExpandPlainAt(p, i);
    case Escaped(c) =>
      ExpandEscapedAt(p, i);
    case RangeOf(a, b) =>
      ExpandRangeAt(p, i);
  }

  /** A rendered item is spelled where its rendering is. */
  lemma SpelledItem(p: seq<Char16>, i: nat, it: Item)
    requires i + |RenderItem(it)| <= |p| && p[i..i + |RenderItem(it)|] == RenderItem(it)
    ensures ItemAt(p, i, it)
  {
    var w := RenderItem(it);
    forall k | 0 <= k < |w| ensures p[i + k] == w[k] {
      assert p[i..i + |w|][k] == w[k];
    }
  }

  /** A plain character not followed by `-` stands for itself. */
  lemma ExpandPlainAt(p: seq<Char16>, i: nat)
    requires i < |p| && Plain(p[i]) && (i + 1 == |p| || p[i + 1] != DASH)
    ensures ExpandFrom(p, i) == Prepend([p[i]], ExpandFrom(p, i + 1))
    ensures ExpandHalts(p, i + 1) ==> ExpandHalts(p, i)
  {
  }

  /** A backslash makes the next character stand for itself. */
  lemma ExpandEscapedAt(p: seq<Char16>, i: nat)
    requires i + 1 < |p| && p[i] == BACKSLASH
    ensures ExpandFrom(p, i) == Prepend([p[i + 1]], ExpandFrom(p, i + 2))
    ensures ExpandHalts(p, i + 2) ==> ExpandHalts(p, i)
  {
  }

  /** A plain character, `-` and a character stand for the range between them. */
  lemma ExpandRangeAt(p: seq<Char16>, i: nat)
    requires i + 2 < |p| && Plain(p[i]) && p[i + 1] == DASH && RangeTerminates(p[i], p[i + 2])
    ensures ExpandFrom(p, i) == Prepend(Range(p[i], p[i + 2]), ExpandFrom(p, i + 3))
    ensures ExpandHalts(p, i + 3) ==> ExpandHalts(p, i)
  {
    assert ExpandFrom(p, i) == ExpandFrom(p, i + 1);
    assert ExpandHalts(p, i) == ExpandHalts(p, i + 1);
  }

  /** `p` holds the well-formed `items` from position `i` on, and no `-` follows them. */
  predicate RenderedAt(p: seq<Char16>, i: nat, items: seq<Item>)
    decreases |items|
  {
    if items == [] then i == |p| || (i < |p| && p[i] != DASH)
    else
      WellFormedItem(items[0]) && ItemAt(p, i, items[0]) && RenderedAt(p, i + |RenderItem(items[0])|, items[1..])
  }

  /** Where the items rendered from position `i` end. */
  function EndOf(i: nat, items: seq<Item>): nat
    decreases |items|
  {
    if items == [] then i else EndOf(i + |RenderItem(items[0])|, items[1..])
  }

  /** Items rendered in a pattern expand to their meaning, in front of what follows them. */
  lemma {:induction false} ExpandItems(p: seq<Char16>, i: nat, items: seq<Item>)
    requires RenderedAt(p, i, items)
    ensures ExpandFrom(p, i) == Prepend(Meaning(items), ExpandFrom(p, EndOf(i, items)))
    ensures ExpandHalts(p, EndOf(i, items)) ==> ExpandHalts(p, i)
    decreases |items|
  {
    if items == [] {
      PrependNothing(ExpandFrom(p, i));
    } else {
      var j := i + |RenderItem(items[0])|;
      if items[1..] != [] {
        RenderedStart(p, j, items[1..]);
      }
      ExpandItem(p, i, items[0]);
      ExpandItems(p, j, items[1..]);
      PrependTwice(MeaningItem(items[0]), Meaning(items[1..]), ExpandFrom(p, EndOf(i, items)));
    }
  }

  /** Rendered items never start with `-`. */
  lemma RenderedStart(p: seq<Char16>, i: nat, items: seq<Item>)
    requires items != [] && RenderedAt(p, i, items)
    ensures i < |p| && p[i] != DASH
  {
  }

  /** Well-formed items, rendered in `p` from `i` on and not followed by `-`, are where `RenderedAt` says. */
  lemma {:induction false} RenderedIn(p: seq<Char16>, i: nat, items: seq<Item>)
    requires WellFormed(items)
    requires i + |Render(items)| <= |p| && p[i..i + |Render(items)|] == Render(items)
    requires i + |Render(items)| == |p| || p[i + |Render(items)|] != DASH
    ensures RenderedAt(p, i, items)
    ensures EndOf(i, items) == i + |Render(items)|
    decreases |items|
  {
    if items != [] {
      var w, rest := RenderItem(items[0]), Render(items[1..]);
      assert Render(items) == w + rest;
      SliceSplit(p, i, w, rest);
      SpelledItem(p, i, items[0]);
      WellFormedTail(items);
      RenderedIn(p, i + |w|, items[1..]);
    }
  }

  lemma WellFormedTail(items: seq<Item>)
    requires items != [] && WellFormed(items)
    ensures WellFormedItem(items[0]) && WellFormed(items[1..])
  {
    assert WellFormedItem(items[0]);
    forall k | 0 <= k < |items[1..]| ensures WellFormedItem(items[1..][k]) {
      assert items[1..][k] == items[k + 1];
    }
  }

  /** A slice holding `w + rest` holds `w`, then `rest`. */
  lemma SliceSplit(p: seq<Char16>, i: nat, w: seq<Char16>, rest: seq<Char16>)
    requires i + |w| + |rest| <= |p| && p[i..i + |w| + |rest|] == w + rest
    ensures p[i..i + |w|] == w && p[i + |w|..i + |w| + |rest|] == rest
  {
    var q := p[i..i + |w| + |rest|];
    assert p[i..i + |w|] == q[..|w|];
    assert p[i + |w|..i + |w| + |rest|] == q[|w|..];
  }

  /** Round trip: the pattern written for well-formed items expands to what they mean. */
  lemma ExpandRendered(items: seq<Item>)
    requires WellFormed(items)
    ensures ExpandHalts(Render(items), 0)
    ensures ExpandFrom(Render(items), 0) == Ok(Meaning(items))
  {
    var p := Render(items);
    assert p[0..|p|] == p;
    RenderedIn(p, 0, items);
    ExpandItems(p, 0, items);
    assert Meaning(items) + [] == Meaning(items);
  }

  /** A `-` closing any pattern written for well-formed items throws. */
  lemma TrailingDashAfterItems(items: seq<Item>)
    requires WellFormed(items)
    ensures ExpandFrom(Render(items) + [DASH], 0) == Err(DanglingRangeOperator(|Render(items)|))
  {
    var p := Render(items) + [DASH];
    assert p[0..|Render(items)|] == Render(items);
    TrailingDashAfterItemsFrom(p, 0, items);
  }

  /** A failure after a well-formed item passes through the item. */
  lemma FailurePassesItem(p: seq<Char16>, i: nat, it: Item)
    requires WellFormedItem(it) && ItemAt(p, i, it) && i + |RenderItem(it)| < |p|
    ensures ExpandFrom(p, i + |RenderItem(it)|).Err? ==> ExpandFrom(p, i) == ExpandFrom(p, i + |RenderItem(it)|)
  {
    match it
    case Literal(c) =>
      if p[i + 1] != DASH {
        ExpandPlainAt(p, i);
      } else {
        assert ExpandFrom(p, i) == ExpandFrom(p, i + 1);
      }
    case Escaped(c) =>
      ExpandEscapedAt(p, i);
    case RangeOf(a, b) =>
      ExpandRangeAt(p, i);
  }

  lemma {:induction false} TrailingDashAfterItemsFrom(p: seq<Char16>, i: nat, items: seq<Item>)
    requires WellFormed(items)
    requires i + |Render(items)| + 1 == |p| && p[|p| - 1] == DASH
    requires p[i..i + |Render(items)|] == Render(items)
    ensures ExpandFrom(p, i) == Err(DanglingRangeOperator(|p| - 1))
    decreases |items|
  {
    if items != [] {
      var w, rest := RenderItem(items[0]), Render(items[1..]);
      assert Render(items) == w + rest;
      SliceSplit(p, i, w, rest);
      SpelledItem(p, i, items[0]);
      WellFormedTail(items);
      TrailingDashAfterItemsFrom(p, i + |w|, items[1..]);
      FailurePassesItem(p, i, items[0]);
    }
  }

  /** A final `-` does not throw when it is escaped or closes a range. */
  lemma TrailingDashNotDangling(a: Char16)
    requires Plain(a)
    ensures ExpandFrom([BACKSLASH, DASH], 0) == Ok([DASH])
    ensures ExpandFrom([a, DASH, DASH], 0) == Ok(Range(a, DASH))
  {
    var e := [BACKSLASH, DASH];
    assert ExpandFrom(e, 2) == Ok([]);
    assert ExpandFrom(e, 0) == Prepend([DASH], ExpandFrom(e, 2));
    assert [DASH] + [] == [DASH];
    var p := [a, DASH, DASH];
    assert ExpandFrom(p, 0) == ExpandFrom(p, 1);
    assert ExpandFrom(p, 3) == Ok([]);
    assert Range(a, DASH) + [] == Range(a, DASH);
  }

  /** A backslash at the end of a pattern contributes nothing. */
  lemma TrailingBackslashIgnored(items: seq<Item>)
    requires WellFormed(items)
    ensures ExpandHalts(Render(items) + [BACKSLASH], 0)
    ensures ExpandFrom(Render(items) + [BACKSLASH], 0) == Ok(Meaning(items))
  {
    var p := Render(items) + [BACKSLASH];
    assert p[0..|Render(items)|] == Render(items);
    assert p[|Render(items)|] == BACKSLASH;
    RenderedIn(p, 0, items);
    assert ExpandFrom(p, |Render(items)|) == Ok([]);
    assert ExpandHalts(p, |Render(items)|);
    ExpandItems(p, 0, items);
    assert Meaning(items) + [] == Meaning(items);
  }

  /** A pattern of three ranges expands to the three ranges, one after the other. */
  lemma ThreeRanges(a1: Char16, b1: Char16, a2: Char16, b2: Char16, a3: Char16, b3: Char16)
    requires Plain(a1) && Plain(a2) && Plain(a3)
    requires RangeTerminates(a1, b1) && RangeTerminates(a2, b2) && RangeTerminates(a3, b3)
    ensures ExpandFrom([a1, DASH, b1, a2, DASH, b2, a3, DASH, b3], 0)
         == Ok(Range(a1, b1) + Range(a2, b2) + Range(a3, b3))
  {
    var p := [a1, DASH, b1, a2, DASH, b2, a3, DASH, b3];
    ExpandRangeAt(p, 0);
    ExpandRangeAt(p, 3);
    ExpandRangeAt(p, 6);
    assert ExpandFrom(p, 9) == Ok([]);
    assert Range(a3, b3) + [] == Range(a3, b3);
    PrependTwice(Range(a1, b1), Range(a2, b2), ExpandFrom(p, 6));
  }

  /**
   * The example of the documentation, "a-zA-Z0-1", yields the letters and
   * only the digits '0' and '1', not all ten digits the text promises.
   */
  lemma DocumentedPatternMissesDigits()
    ensures ExpandFrom([97, DASH, 122, 65, DASH, 90, 48, DASH, 49], 0)
         == Ok(Range(97, 122) + Range(65, 90) + [48, 49])
    ensures var r := ExpandFrom([97, DASH, 122, 65, DASH, 90, 48, DASH, 49], 0).value; 50 !in r && 57 !in r
  {
    ThreeRanges(97, 122, 65, 90, 48, 49);
    RangeContents(97, 122);
    RangeContents(65, 90);
    assert Range(48, 49) == [48, 49];
  }

  /** "a-zA-Z0-9" yields every lower case letter, upper case letter and digit, and nothing else. */
  lemma LettersAndDigitsPattern()
    ensures ExpandFrom([97, DASH, 122, 65, DASH, 90, 48, DASH, 57], 0).Ok?
    ensures forall c :: c in ExpandFrom([97, DASH, 122, 65, DASH, 90, 48, DASH, 57], 0).value
                    <==> (97 <= c <= 122 || 65 <= c <= 90 || 48 <= c <= 57)
  {
    ThreeRanges(97, 122, 65, 90, 48, 57);
    RangeContents(97, 122);
    RangeContents(65, 90);
    RangeContents(48, 57);
  }

  // ---------------------------------------------------------------------
  // The factories.

  /** of(pattern): the CharSeq of the expanded pattern, or the pattern's exception. */
  method OfPattern(pattern: seq<Char16>) returns (r: Result<CharSeq, Failure>)
    requires ExpandHalts(pattern, 0)
    ensures r.Ok? <==> ExpandFrom(pattern, 0).Ok?
    ensures r.Ok? ==> r.value.Valid() && r.value.characters == Canonical(ExpandFrom(pattern, 0).value)
    ensures r.Err? ==> r.error == ExpandFrom(pattern, 0).error
  {
    var expanded := Expand(pattern);
    if expanded.Err? {
      return Err(expanded.error);
    }
    var cs := FromString(expanded.value);
    r := Ok(cs);
  }

  /** of(a, b): the CharSeq of the characters from `a` to `b`. */
  method OfRange(a: Char16, b: Char16) returns (cs: CharSeq)
    requires RangeTerminates(a, b)
    ensures cs.Valid() && cs.characters == Canonical(Range(a, b))
  {
    var expanded := ExpandRange(a, b);
    cs := FromString(expanded);
  }

  /** of(a, b) and of(b, a) are the same set: the characters between the two ends, increasing. */
  lemma OfRangeContents(a: Char16, b: Char16)
    ensures Canonical(Range(a, b)) == Canonical(Range(b, a))
    ensures a <= b ==> Canonical(Range(a, b)) == Range(a, b)
  {
    if a != b {
      RangeContents(a, b);
      RangeContents(b, a);
      CanonicalRespectsElements(Range(a, b), Range(b, a));
      if a < b {
        CanonicalOfAscending(Range(a, b));
      }
    }
  }
}
