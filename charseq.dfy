/**
 * org.jenetics.util.CharSeq: the set of valid characters of a character
 * gene, held as a sorted array without duplicates. Java `char` values are
 * 16-bit code units (`Char16`).
 */
module CharSeqs {
  import opened Wrappers

  /** A Java `char`: an unsigned 16-bit code unit. */
  newtype Char16 = x: int | 0 <= x < 0x1_0000

  // ---------------------------------------------------------------------
  // Orderings and the canonical form of a character collection.

  /** Non-decreasing, as `Arrays.sort` leaves an array. */
  predicate Sorted(s: seq<Char16>)
  {
    forall i, j :: 0 <= i < j < |s| ==> s[i] <= s[j]
  }

  /** Increasing: sorted and without duplicates. */
  predicate StrictlyAscending(s: seq<Char16>)
  {
    forall i, j :: 0 <= i < j < |s| ==> s[i] < s[j]
  }

  /** `a` and `b` hold the same characters, repeats and order aside. */
  predicate SameElements(a: seq<Char16>, b: seq<Char16>)
  {
    forall c :: c in a <==> c in b
  }

  /** Adds `c` to an increasing sequence, keeping it increasing. */
  function Insert(c: Char16, t: seq<Char16>): (r: seq<Char16>)
    requires StrictlyAscending(t)
    ensures StrictlyAscending(r)
    ensures forall x :: x in r <==> x == c || x in t
  {
    if t == [] then [c]
    else if c < t[0] then [c] + t
    else if c == t[0] then t
    else
      var rest := Insert(c, t[1..]);
      ConsAscending(t[0], rest);
      [t[0]] + rest
  }

  /** Putting a character below all others in front keeps a sequence increasing. */
  lemma ConsAscending(x: Char16, r: seq<Char16>)
    requires StrictlyAscending(r) && forall y :: y in r ==> x < y
    ensures StrictlyAscending([x] + r)
  {
    var s := [x] + r;
    forall i, j | 0 <= i < j < |s| ensures s[i] < s[j] {
      assert s[j] == r[j - 1] && r[j - 1] in r;
      if i > 0 {
        assert s[i] == r[i - 1];
      }
    }
  }

  /**
   * The characters of `s` in increasing order, each once: what the
   * constructors store, defined element by element and independently of
   * the sorting loop.
   */
  function Canonical(s: seq<Char16>): (r: seq<Char16>)
    ensures StrictlyAscending(r)
    ensures SameElements(r, s)
  {
    if s == [] then [] else Insert(s[0], Canonical(s[1..]))
  }

  /** An increasing sequence is determined by its characters. */
  lemma {:induction false} AscendingUnique(a: seq<Char16>, b: seq<Char16>)
    requires StrictlyAscending(a) && StrictlyAscending(b) && SameElements(a, b)
    ensures a == b
  {
    EmptyTogether(a, b);
    if a != [] {
      assert a[0] == b[0] by {
        assert a[0] in b && b[0] in a;
      }
      forall c ensures c in a[1..] <==> c in b[1..] {
        if c in a[1..] {
          assert c in b && c != b[0];
        }
        if c in b[1..] {
          assert c in a && c != a[0];
        }
      }
      AscendingUnique(a[1..], b[1..]);
      assert a == [a[0]] + a[1..] && b == [b[0]] + b[1..];
    }
  }

  /** Sequences with the same characters are empty together. */
  lemma EmptyTogether(a: seq<Char16>, b: seq<Char16>)
    requires SameElements(a, b)
    ensures a == [] <==> b == []
  {
    if a != [] {
      assert a[0] in b;
    }
    if b != [] {
      assert b[0] in a;
    }
  }

  /** Any increasing sequence with the characters of `s` is its canonical form. */
  lemma CanonicalOf(s: seq<Char16>, r: seq<Char16>)
    requires StrictlyAscending(r) && SameElements(r, s)
    ensures r == Canonical(s)
  {
    AscendingUnique(r, Canonical(s));
  }

  /** Inputs with the same characters, in any order and with any repeats, have one canonical form. */
  lemma CanonicalRespectsElements(a: seq<Char16>, b: seq<Char16>)
    ensures SameElements(a, b) <==> Canonical(a) == Canonical(b)
  {
    if SameElements(a, b) {
      AscendingUnique(Canonical(a), Canonical(b));
    }
  }

  /** An increasing sequence is its own canonical form. */
  lemma CanonicalOfAscending(s: seq<Char16>)
    requires StrictlyAscending(s)
    ensures Canonical(s) == s
  {
    CanonicalOf(s, s);
  }

  /** Only the empty input has the empty canonical form. */
  lemma CanonicalEmpty(s: seq<Char16>)
    ensures Canonical(s) == [] <==> s == []
  {
    if s != [] {
      assert s[0] in Canonical(s);
    }
  }

  // ---------------------------------------------------------------------
  // Arrays.sort, as the sorted permutation it produces.

  /** Adds `c` to a sorted sequence, keeping repeats. */
  function InsertSorted(c: Char16, t: seq<Char16>): (r: seq<Char16>)
    requires Sorted(t)
    ensures Sorted(r)
    ensures multiset(r) == multiset(t) + multiset{c}
    ensures forall x :: x in r <==> x == c || x in t
  {
    if t == [] then [c]
    else if c <= t[0] then [c] + t
    else
      assert t == [t[0]] + t[1..];
      var rest := InsertSorted(c, t[1..]);
      assert forall k :: 0 <= k < |t| - 1 ==> t[0] <= t[1..][k];
      ConsSorted(t[0], rest);
      [t[0]] + rest
  }

  /** Putting a character no larger than the others in front keeps a sequence sorted. */
  lemma ConsSorted(x: Char16, r: seq<Char16>)
    requires Sorted(r) && forall y :: y in r ==> x <= y
    ensures Sorted([x] + r)
  {
    var s := [x] + r;
    forall i, j | 0 <= i < j < |s| ensures s[i] <= s[j] {
      assert s[j] == r[j - 1] && r[j - 1] in r;
      if i > 0 {
        assert s[i] == r[i - 1];
      }
    }
  }

  /** The sorted permutation of `s`. */
  function SortedOf(s: seq<Char16>): (r: seq<Char16>)
    ensures Sorted(r)
    ensures multiset(r) == multiset(s)
  {
    if s == [] then []
    else
      assert s == [s[0]] + s[1..];
      InsertSorted(s[0], SortedOf(s[1..]))
  }

  /** Arrays.sort(char[]): sorts the array in place. */
  method Sort(a: array<Char16>)
    modifies a
    ensures Sorted(a[..]) && multiset(a[..]) == multiset(old(a[..]))
  {
    var sorted := SortedOf(a[..]);
    assert |sorted| == |multiset(sorted)| == |multiset(a[..])| == a.Length;
    forall k | 0 <= k < a.Length {
      a[k] := sorted[k];
    }
    assert a[..] == sorted;
  }

  // ---------------------------------------------------------------------
  // Construction.

  /** A permutation has the same characters. */
  lemma PermutationSameElements(a: seq<Char16>, b: seq<Char16>)
    requires multiset(a) == multiset(b)
    ensures SameElements(a, b)
  {
    forall c ensures c in a <==> c in b {
      assert c in a <==> c in multiset(a);
      assert c in b <==> c in multiset(b);
    }
  }

  /** Appending a character above the last keeps a sequence increasing. */
  lemma AppendAscending(r: seq<Char16>, x: Char16)
    requires r != [] && StrictlyAscending(r) && r[|r| - 1] < x
    ensures StrictlyAscending(r + [x])
  {
  }

  /** Further copies of the last character read add no new character. */
  lemma RepeatsAddNothing(r: seq<Char16>, s: seq<Char16>, start: int, j: int)
    requires 0 <= start < j <= |s|
    requires SameElements(r, s[..start + 1])
    requires forall k :: start <= k < j ==> s[k] == s[start]
    ensures SameElements(r, s[..j])
  {
    forall c | c in s[..j] ensures c in s[..start + 1] {
      var k :| 0 <= k < j && s[k] == c;
      if k > start {
        assert s[start] in s[..start + 1];
      } else {
        assert s[..start + 1][k] == c;
      }
    }
  }

  /**
   * distinct(chars): sorts `chars` in place, moves each new character to
   * the front of the array, then copies that front into an array of its own.
   */
  method Distinct(chars: array<Char16>) returns (result: array<Char16>)
    modifies chars
    ensures StrictlyAscending(result[..])
    ensures SameElements(result[..], old(chars[..]))
  {
    result := chars;
    if chars.Length > 0 {
      Sort(result);
      ghost var sorted := result[..];
      PermutationSameElements(sorted, old(chars[..]));
      var count := MoveDistinctToFront(result);
      ghost var front := result[..count];
      assert SameElements(front, old(chars[..])) by {
        assert SameElements(front, sorted);
      }
      var copy := new Char16[count];
      forall k | 0 <= k < count {
        copy[k] := result[k];
      }
      assert copy[..] == front;
      result := copy;
    }
  }

  /**
   * The loop of distinct(chars) over a sorted array: position `i` receives
   * the next character different from the last one kept, found by skipping
   * repeats from `nextIndex`; the count of characters kept is returned.
   */
  method MoveDistinctToFront(result: array<Char16>) returns (count: int)
    requires result.Length > 0 && Sorted(result[..])
    modifies result
    ensures 1 <= count <= result.Length
    ensures StrictlyAscending(result[..count])
    ensures SameElements(result[..count], old(result[..]))
  {
    ghost var s := result[..];
    var n := result.Length;
    var nextIndex := 0;
    count := 1;
    var last := result[0];
    var i := 1;
    while i < n
      invariant 1 <= count <= i <= n && 0 <= nextIndex <= n && count - 1 <= nextIndex
      invariant nextIndex < n ==> count == i && s[nextIndex] == last
      invariant last == result[count - 1]
      invariant StrictlyAscending(result[..count])
      invariant forall k :: count <= k < n ==> result[k] == s[k]
      invariant nextIndex < n ==> SameElements(result[..count], s[..nextIndex + 1])
      invariant nextIndex == n ==> SameElements(result[..count], s)
    {
      ghost var start := nextIndex;
      nextIndex := SkipRepeats(result, nextIndex, last);
      if start < n {
        assert forall k :: start <= k < nextIndex ==> s[k] == last;
        RepeatsAddNothing(result[..count], s, start, nextIndex);
      }
      if nextIndex < n {
        ghost var front := result[..count];
        assert s[nextIndex - 1] == front[count - 1] < s[nextIndex];
        AppendAscending(front, s[nextIndex]);
        last := result[nextIndex];
        result[i] := last;
        count := count + 1;
        assert result[..count] == front + [last];
        assert s[..nextIndex + 1] == s[..nextIndex] + [last];
      }
      i := i + 1;
    }
    if nextIndex < n {
      assert s[..nextIndex + 1] == s;
    }
  }

  /** The inner loop of distinct(chars): advances past the copies of `last`. */
  method SkipRepeats(a: array<Char16>, from: int, last: Char16) returns (j: int)
    requires 0 <= from <= a.Length
    ensures from <= j <= a.Length
    ensures forall k :: from <= k < j ==> a[k] == last
    ensures j < a.Length ==> a[j] != last
  {
    j := from;
    while j < a.Length && a[j] == last
      invariant from <= j <= a.Length
      invariant forall k :: from <= k < j ==> a[k] == last
    {
      j := j + 1;
    }
  }

  // ---------------------------------------------------------------------
  // The value type.

  /** The exceptions the operations throw. */
  datatype Failure =
    | IndexOutOfBounds(index: int)
    | NoSuchElement(position: int)
    | UnsupportedOperation
    | DanglingRangeOperator(index: int)

  /** A CharSeq: its characters, increasing and each once. */
  datatype CharSeq = CharSeq(characters: seq<Char16>)
  {
    predicate Valid()
    {
      StrictlyAscending(characters)
    }
  }

  /** toCharArray(characters): the characters of a char sequence, in order, in a new array. */
  method ToCharArray(characters: seq<Char16>) returns (chars: array<Char16>)
    ensures fresh(chars) && chars[..] == characters
  {
    chars := new Char16[|characters|];
    var i := 0;
    while i < |characters|
      invariant 0 <= i <= |characters|
      invariant forall k :: 0 <= k < i ==> chars[k] == characters[k]
    {
      chars[i] := characters[i];
      i := i + 1;
    }
  }

  /** CharSeq(char[]): distinct characters of a clone of the array, increasing. */
  method FromArray(characters: array<Char16>) returns (cs: CharSeq)
    ensures cs.Valid() && cs.characters == Canonical(characters[..])
  {
    var clone := new Char16[characters.Length](k requires 0 <= k < characters.Length reads characters => characters[k]);
    assert clone[..] == characters[..];
    var chars := Distinct(clone);
    cs := CharSeq(chars[..]);
    CanonicalOf(characters[..], cs.characters);
  }

  /** CharSeq(CharSequence): the distinct characters of the input, increasing. */
  method FromString(characters: seq<Char16>) returns (cs: CharSeq)
    ensures cs.Valid() && cs.characters == Canonical(characters)
  {
    var chars := ToCharArray(characters);
    cs := FromArray(chars);
  }

  /** A character of the input is stored iff it occurs in the input; an empty input gives an empty CharSeq. */
  lemma ConstructionKeepsCharacters(characters: seq<Char16>, c: Char16)
    ensures c in Canonical(characters) <==> c in characters
    ensures Canonical(characters) == [] <==> characters == []
  {
    CanonicalEmpty(characters);
  }

  /**
   * Arrays.binarySearch(char[], key) on a sorted array: the index of `key`,
   * or -(insertion point) - 1 when `key` is absent.
   */
  method BinarySearch(a: seq<Char16>, key: Char16) returns (index: int)
    requires Sorted(a)
    ensures 0 <= index ==> index < |a| && a[index] == key
    ensures index < 0 ==> -(index + 1) <= |a|
    ensures index < 0 ==> forall k :: 0 <= k < -(index + 1) ==> a[k] < key
    ensures index < 0 ==> forall k :: -(index + 1) <= k < |a| ==> key < a[k]
  {
    var low, high := 0, |a| - 1;
    while low <= high
      invariant 0 <= low <= high + 1 <= |a|
      invariant forall k :: 0 <= k < low ==> a[k] < key
      invariant forall k :: high < k < |a| ==> key < a[k]
    {
      var mid := (low + high) / 2;
      var midVal := a[mid];
      if midVal < key {
        low := mid + 1;
      } else if midVal > key {
        high := mid - 1;
      } else {
        return mid;
      }
    }
    return -(low + 1);
  }

  /** contains(char): binary search for `c`. */
  method Contains(cs: CharSeq, c: Char16) returns (r: bool)
    requires cs.Valid()
    ensures r <==> c in cs.characters
  {
    var index := BinarySearch(cs.characters, c);
    r := index >= 0;
  }

  /** charAt(index): the `index`-th smallest character, or the array's bounds exception. */
  function CharAt(cs: CharSeq, index: int): (r: Result<Char16, Failure>)
    ensures r.Ok? <==> 0 <= index < Length(cs)
  {
    if 0 <= index < |cs.characters| then Ok(cs.characters[index]) else Err(IndexOutOfBounds(index))
  }

  /** A strictly ascending sequence holds as many different characters as it is long. */
  lemma {:induction false} DistinctCount(s: seq<Char16>)
    ensures StrictlyAscending(s) ==> |set c | c in s| == |s|
  {
    if s != [] && StrictlyAscending(s) {
      var t := s[1..];
      assert StrictlyAscending(t) by {
        forall i, j | 0 <= i < j < |t| ensures t[i] < t[j] {
          assert t[i] == s[i + 1] && t[j] == s[j + 1];
        }
      }
      DistinctCount(t);
      assert (set c | c in s) == {s[0]} + (set c | c in t);
      assert s[0] !in t;
    }
  }

  /** length(): the number of different characters held. */
  function Length(cs: CharSeq): (n: nat)
    ensures cs.Valid() ==> n == |set c | c in cs.characters|
  {
    DistinctCount(cs.characters);
    |cs.characters|
  }

  /** isEmpty(): holds iff the length is zero, iff no character is stored. */
  function IsEmpty(cs: CharSeq): (r: bool)
    ensures r <==> Length(cs) == 0
    ensures r <==> forall c :: c !in cs.characters
  {
    if |cs.characters| == 0 then true
    else assert cs.characters[0] in cs.characters; false
  }

  /** The characters reached by charAt are the stored ones, increasing with the index. */
  lemma CharAtEnumerates(cs: CharSeq, c: Char16)
    requires cs.Valid()
    ensures c in cs.characters <==> exists i :: CharAt(cs, i) == Ok(c)
    ensures forall i, j :: 0 <= i < j < Length(cs) ==> CharAt(cs, i).value < CharAt(cs, j).value
  {
    if c in cs.characters {
      var i :| 0 <= i < |cs.characters| && cs.characters[i] == c;
      assert CharAt(cs, i) == Ok(c);
    }
  }

  /**
   * subSequence(start, end): a new CharSeq of the characters from `start`
   * to `end`; a range outside the characters throws.
   */
  method SubSequence(cs: CharSeq, start: int, end: int) returns (r: Result<CharSeq, Failure>)
    requires cs.Valid()
    ensures r.Ok? <==> 0 <= start <= end <= Length(cs)
    ensures r.Ok? ==> r.value.Valid() && r.value.characters == cs.characters[start..end]
  {
    if 0 <= start && start <= end && end <= |cs.characters| {
      var sub := FromString(cs.characters[start..end]);
      CanonicalOfAscending(cs.characters[start..end]);
      r := Ok(sub);
    } else {
      r := Err(IndexOutOfBounds(if start < 0 || start > |cs.characters| then start else end));
    }
  }

  /** Strictly ascending sequences are equal iff they hold the same characters. */
  lemma AscendingEqualIff(a: seq<Char16>, b: seq<Char16>)
    ensures StrictlyAscending(a) && StrictlyAscending(b) ==> (a == b <==> SameElements(a, b))
  {
    if StrictlyAscending(a) && StrictlyAscending(b) && SameElements(a, b) {
      AscendingUnique(a, b);
    }
  }

  /**
   * equals(object) on two CharSeqs: equal character arrays. Two valid
   * CharSeqs are equal iff they hold the same characters.
   */
  function Equals(a: CharSeq, b: CharSeq): (r: bool)
    ensures a.Valid() && b.Valid() ==> (r <==> SameElements(a.characters, b.characters))
  {
    AscendingEqualIff(a.characters, b.characters);
    a.characters == b.characters
  }

  /** The class comment's example: "abcdeaafg" and "gfedcbabb" (as char codes) give equal CharSeqs. */
  lemma ClassCommentExample()
    ensures Equals(CharSeq(Canonical([97, 98, 99, 100, 101, 97, 97, 102, 103])),
                   CharSeq(Canonical([103, 102, 101, 100, 99, 98, 97, 98, 98])))
  {
    var a: seq<Char16> := [97, 98, 99, 100, 101, 97, 97, 102, 103];
    var b: seq<Char16> := [103, 102, 101, 100, 99, 98, 97, 98, 98];
    assert SameElements(a, b);
    CanonicalRespectsElements(a, b);
  }

  // ---------------------------------------------------------------------
  // Ordering.

  /** compareTo: the first differing character decides, by its difference; else the length. */
  function Compare(x: seq<Char16>, y: seq<Char16>): int
  {
    if x == [] || y == [] then |x| - |y|
    else if x[0] != y[0] then x[0] as int - y[0] as int
    else Compare(x[1..], y[1..])
  }

  /** Lexicographic order, defined independently of Compare. */
  predicate LexLess(x: seq<Char16>, y: seq<Char16>)
  {
    (exists k :: 0 <= k < |x| && k < |y| && x[..k] == y[..k] && x[k] < y[k])
    || (|x| < |y| && x == y[..|x|])
  }

  /** compareTo(set): the Java loop over the common length, then the length difference. */
  method CompareTo(a: CharSeq, b: CharSeq) returns (result: int)
    ensures result == Compare(a.characters, b.characters)
  {
    var x, y := a.characters, b.characters;
    result := 0;
    var n := if |x| < |y| then |x| else |y|;
    var i := 0;
    while i < n && result == 0
      invariant 0 <= i <= n
      invariant result == 0 ==> x[..i] == y[..i]
      invariant result != 0 ==> 0 < i && x[..i - 1] == y[..i - 1] && result == x[i - 1] as int - y[i - 1] as int
    {
      result := x[i] as int - y[i] as int;
      i := i + 1;
    }
    if result == 0 {
      CompareAfterCommonPrefix(x, y, n);
      result := |x| - |y|;
    } else {
      CompareAfterCommonPrefix(x, y, i - 1);
    }
  }

  /** A common prefix does not change the comparison. */
  lemma {:induction false} CompareAfterCommonPrefix(x: seq<Char16>, y: seq<Char16>, i: int)
    requires 0 <= i <= |x| && i <= |y| && x[..i] == y[..i]
    ensures Compare(x, y) == Compare(x[i..], y[i..])
  {
    if i > 0 {
      assert x[0] == x[..i][0] == y[..i][0] == y[0];
      assert x[1..][..i - 1] == x[..i][1..] && y[1..][..i - 1] == y[..i][1..];
      CompareAfterCommonPrefix(x[1..], y[1..], i - 1);
      assert x[1..][i - 1..] == x[i..] && y[1..][i - 1..] == y[i..];
    }
  }

  /** compareTo returns zero iff the character arrays are equal. */
  lemma {:induction false} CompareZeroIffEqual(x: seq<Char16>, y: seq<Char16>)
    ensures Compare(x, y) == 0 <==> x == y
  {
    if x != [] && y != [] && x[0] == y[0] {
      CompareZeroIffEqual(x[1..], y[1..]);
      assert x == [x[0]] + x[1..] && y == [y[0]] + y[1..];
    }
  }

  /** Swapping the operands negates the result. */
  lemma {:induction false} CompareAntisymmetric(x: seq<Char16>, y: seq<Char16>)
    ensures Compare(x, y) == -Compare(y, x)
  {
    if x != [] && y != [] && x[0] == y[0] {
      CompareAntisymmetric(x[1..], y[1..]);
    }
  }

  /** compareTo is negative exactly when `x` precedes `y` lexicographically. */
  lemma {:induction false} CompareIsLexicographic(x: seq<Char16>, y: seq<Char16>)
    ensures Compare(x, y) < 0 <==> LexLess(x, y)
  {
    if x == [] || y == [] {
      if |x| < |y| {
        assert x == y[..|x|];
      }
    } else if x[0] != y[0] {
      if x[0] < y[0] {
        assert x[..0] == y[..0];
      }
      if LexLess(x, y) && !(|x| < |y| && x == y[..|x|]) {
        var k :| 0 <= k < |x| && k < |y| && x[..k] == y[..k] && x[k] < y[k];
        if k > 0 {
          assert x[0] == x[..k][0] == y[..k][0] == y[0];
        }
      }
    } else {
      CompareIsLexicographic(x[1..], y[1..]);
      LexLessTail(x, y);
    }
  }

  /** With equal first characters, lexicographic order is that of the tails. */
  lemma LexLessTail(x: seq<Char16>, y: seq<Char16>)
    requires x != [] && y != [] && x[0] == y[0]
    ensures LexLess(x, y) <==> LexLess(x[1..], y[1..])
  {
    if LexLess(x[1..], y[1..]) {
      if |x[1..]| < |y[1..]| && x[1..] == y[1..][..|x[1..]|] {
        assert x == [x[0]] + x[1..] && y[..|x|] == [y[0]] + y[1..][..|x| - 1];
      } else {
        var k :| 0 <= k < |x[1..]| && k < |y[1..]| && x[1..][..k] == y[1..][..k] && x[1..][k] < y[1..][k];
        assert x[..k + 1] == [x[0]] + x[1..][..k] && y[..k + 1] == [y[0]] + y[1..][..k];
      }
    }
    if LexLess(x, y) {
      if |x| < |y| && x == y[..|x|] {
        assert x[1..] == y[1..][..|x| - 1];
      } else {
        var k :| 0 <= k < |x| && k < |y| && x[..k] == y[..k] && x[k] < y[k];
        if k == 0 {
          assert false;
        }
        assert x[1..][..k - 1] == x[..k][1..] && y[1..][..k - 1] == y[..k][1..];
      }
    }
  }

  // ---------------------------------------------------------------------
  // Iteration.

  /** iterator(): walks the characters in increasing order. */
  class CharIterator {
    const characters: seq<Char16>
    var pos: int
    /** The characters returned so far. */
    ghost var returned: seq<Char16>

    ghost predicate Valid()
      reads this
    {
      0 <= pos <= |characters| && returned == characters[..pos]
    }

    constructor(cs: CharSeq)
      ensures Valid() && characters == cs.characters && returned == []
    {
      characters := cs.characters;
      pos := 0;
      returned := [];
    }

    /** hasNext(): when false, every character has been returned. */
    function HasNext(): (r: bool)
      reads this
      requires Valid()
      ensures !r ==> returned == characters
    {
      pos < |characters|
    }

    /** next(): the next character, or NoSuchElementException at the end. */
    method Next() returns (r: Result<Char16, Failure>)
      requires Valid()
      modifies this
      ensures Valid()
      ensures old(HasNext()) ==> r == Ok(characters[old(pos)]) && returned == old(returned) + [r.value]
      ensures !old(HasNext()) ==> r == Err(NoSuchElement(pos)) && pos == old(pos)
    {
      if !HasNext() {
        return Err(NoSuchElement(pos));
      }
      r := Ok(characters[pos]);
      pos := pos + 1;
      returned := characters[..pos];
    }

    /** remove(): always UnsupportedOperationException. */
    function Remove(): (r: Result<(), Failure>)
      ensures r.Err?
    {
      Err(UnsupportedOperation)
    }
  }

  /** toISeq(chars): the characters in their original order, as an immutable sequence. */
  method ToISeq(chars: seq<Char16>) returns (r: seq<Char16>)
    ensures r == chars
  {
    var a := new Char16[|chars|];
    var i := 0;
    while i < |chars|
      invariant 0 <= i <= |chars|
      invariant forall k :: 0 <= k < i ==> a[k] == chars[k]
    {
      a[i] := chars[i];
      i := i + 1;
    }
    r := a[..];
  }
}
