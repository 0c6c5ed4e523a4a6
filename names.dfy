/**
 * State names: the two string orders of the modelled code (Python's `sorted` and Java's
 * `TreeSet<String>`), sorting, concatenation, and the names given to combined (subset) states.
 */
module Names {

  /**
   * Python compares strings by code point.  Java's `String.compareTo`, which orders a
   * `TreeSet<String>`, compares them by UTF-16 code unit, so a character above U+FFFF counts
   * as its high surrogate, 0xD800 to 0xDBFF, which is below U+E000 to U+FFFF.
   */
  datatype Order = CodePoint | Utf16

  /** The numbers one character is compared on: its code point, or its UTF-16 code units. */
  function Unit(o: Order, c: char): (r: seq<int>)
    ensures o == CodePoint || c as int < 0x1_0000 ==> r == [c as int]
    ensures o == Utf16 && c as int >= 0x1_0000 ==>
      |r| == 2 && 0xD800 <= r[0] < 0xDC00 <= r[1] < 0xE000
      && c as int == 0x1_0000 + (r[0] - 0xD800) * 0x400 + (r[1] - 0xDC00)
  {
    var n := c as int;
    if o == CodePoint || n < 0x1_0000 then [n]
    else [0xD800 + (n - 0x1_0000) / 0x400, 0xDC00 + (n - 0x1_0000) % 0x400]
  }

  /** The numbers a string is compared on, character after character. */
  function Units(o: Order, s: string): seq<int> {
    if s == [] then [] else Unit(o, s[0]) + Units(o, s[1..])
  }

  /** One character's units followed by anything determine the character and the rest. */
  lemma UnitPrefix(o: Order, c: char, d: char, r1: seq<int>, r2: seq<int>)
    requires Unit(o, c) + r1 == Unit(o, d) + r2
    ensures c == d && r1 == r2
  {
    var u, v := Unit(o, c), Unit(o, d);
    assert u[0] == (u + r1)[0] == (v + r2)[0] == v[0];
    if |u| == |v| {
      assert u == (u + r1)[..|u|] && v == (v + r2)[..|v|];
      assert r1 == (u + r1)[|u|..] && r2 == (v + r2)[|v|..];
    }
  }

  /** Different strings are compared on different numbers, under either order. */
  lemma {:induction false} UnitsInjective(o: Order, a: string, b: string)
    requires Units(o, a) == Units(o, b)
    ensures a == b
    decreases |a|
  {
    if a != [] && b != [] {
      UnitPrefix(o, a[0], b[0], Units(o, a[1..]), Units(o, b[1..]));
      UnitsInjective(o, a[1..], b[1..]);
      assert a == [a[0]] + a[1..] && b == [b[0]] + b[1..];
    }
  }

  /** Strict lexicographic order on number sequences: a proper prefix comes first. */
  predicate LexLess(a: seq<int>, b: seq<int>)
    decreases |a|
  {
    if |a| == 0 then |b| > 0
    else if |b| == 0 then false
    else if a[0] != b[0] then a[0] < b[0]
    else LexLess(a[1..], b[1..])
  }

  lemma {:induction false} LexIrreflexive(a: seq<int>)
    ensures !LexLess(a, a)
    decreases |a|
  {
    if |a| > 0 {
      LexIrreflexive(a[1..]);
    }
  }

  lemma {:induction false} LexTransitive(a: seq<int>, b: seq<int>, c: seq<int>)
    requires LexLess(a, b) && LexLess(b, c)
    ensures LexLess(a, c)
    decreases |a|
  {
    if |a| > 0 && a[0] == b[0] && b[0] == c[0] {
      LexTransitive(a[1..], b[1..], c[1..]);
    }
  }

  lemma {:induction false} LexTotal(a: seq<int>, b: seq<int>)
    ensures a == b || LexLess(a, b) || LexLess(b, a)
    decreases |a|
  {
    if |a| > 0 && |b| > 0 && a[0] == b[0] {
      LexTotal(a[1..], b[1..]);
      if a[1..] == b[1..] {
        assert a == [a[0]] + a[1..] && b == [b[0]] + b[1..];
      }
    }
  }

  /** Strict string order o: Python's `<` on str, or Java's `compareTo(...) < 0`. */
  predicate Less(o: Order, a: string, b: string) {
    LexLess(Units(o, a), Units(o, b))
  }

  predicate LessEq(o: Order, a: string, b: string) {
    a == b || Less(o, a, b)
  }

  lemma LessIrreflexive(o: Order, a: string)
    ensures !Less(o, a, a)
  {
    LexIrreflexive(Units(o, a));
  }

  lemma LessTransitive(o: Order, a: string, b: string, c: string)
    requires Less(o, a, b) && Less(o, b, c)
    ensures Less(o, a, c)
  {
    LexTransitive(Units(o, a), Units(o, b), Units(o, c));
  }

  /** Either order is total on strings: unequal strings have unequal units. */
  lemma LessTotal(o: Order, a: string, b: string)
    ensures a == b || Less(o, a, b) || Less(o, b, a)
  {
    LexTotal(Units(o, a), Units(o, b));
    if Units(o, a) == Units(o, b) {
      UnitsInjective(o, a, b);
    }
  }

  lemma LessEqAntisymmetric(o: Order, a: string, b: string)
    requires LessEq(o, a, b) && LessEq(o, b, a)
    ensures a == b
  {
    if a != b {
      LessTransitive(o, a, b, a);
      LessIrreflexive(o, a);
    }
  }

  lemma LessEqTransitive(o: Order, a: string, b: string, c: string)
    requires LessEq(o, a, b) && LessEq(o, b, c)
    ensures LessEq(o, a, c)
  {
    if a != b && b != c {
      LessTransitive(o, a, b, c);
    }
  }

  predicate Sorted(o: Order, s: seq<string>) {
    forall i, j :: 0 <= i < j < |s| ==> LessEq(o, s[i], s[j])
  }

  /** Inserts x into a sorted sequence. */
  function Insert(o: Order, x: string, s: seq<string>): (r: seq<string>)
    requires Sorted(o, s)
    ensures Sorted(o, r)
    ensures multiset(r) == multiset(s) + multiset{x}
  {
    if s == [] then [x]
    else if LessEq(o, x, s[0]) then
      InsertFront(o, x, s);
      [x] + s
    else
      var rest := Insert(o, x, s[1..]);
      assert s == [s[0]] + s[1..];
      LessTotal(o, x, s[0]);
      InsertBound(o, x, s, rest);
      SortedCons(o, s[0], rest);
      [s[0]] + rest
  }

  /** A name at most the head of a sorted sequence can go in front of it. */
  lemma InsertFront(o: Order, x: string, s: seq<string>)
    requires Sorted(o, s) && s != [] && LessEq(o, x, s[0])
    ensures Sorted(o, [x] + s)
  {
    forall k | 0 <= k < |s| ensures LessEq(o, x, s[k]) {
      if k > 0 { LessEqTransitive(o, x, s[0], s[k]); }
    }
  }

  lemma SortedCons(o: Order, h: string, s: seq<string>)
    requires Sorted(o, s)
    requires forall k :: 0 <= k < |s| ==> LessEq(o, h, s[k])
    ensures Sorted(o, [h] + s)
  {
  }

  /**
   * A list of names sorted by order o: Python's `sorted` for CodePoint, the iteration order of a
   * `TreeSet<String>` for Utf16 (insertion sort; any sort agrees, see SortedUnique).
   */
  function Sort(o: Order, s: seq<string>): (r: seq<string>)
    ensures Sorted(o, r)
    ensures multiset(r) == multiset(s)
  {
    if s == [] then []
    else
      assert s == [s[0]] + s[1..];
      Insert(o, s[0], Sort(o, s[1..]))
  }

  /** A sorted arrangement of a multiset of names is unique. */
  lemma {:induction false} SortedUnique(o: Order, a: seq<string>, b: seq<string>)
    requires Sorted(o, a) && Sorted(o, b)
    requires multiset(a) == multiset(b)
    ensures a == b
    decreases |a|
  {
    if a != [] {
      SortedHeads(o, a, b);
      MultisetTail(a);
      MultisetTail(b);
      SortedUnique(o, a[1..], b[1..]);
    }
  }

  /** Every member of a sorted sequence is at least its head. */
  lemma SortedHeadLeast(o: Order, s: seq<string>, y: string)
    requires Sorted(o, s) && y in s
    ensures LessEq(o, s[0], y)
  {
    var m :| 0 <= m < |s| && s[m] == y;
    if m > 0 {
      assert LessEq(o, s[0], s[m]);
    }
  }

  /** What Insert builds behind a head that is smaller than x is at least that head. */
  lemma InsertBound(o: Order, x: string, s: seq<string>, rest: seq<string>)
    requires Sorted(o, s) && |s| > 0 && Less(o, s[0], x)
    requires multiset(rest) == multiset(s[1..]) + multiset{x}
    ensures forall k :: 0 <= k < |rest| ==> LessEq(o, s[0], rest[k])
  {
    forall k | 0 <= k < |rest| ensures LessEq(o, s[0], rest[k]) {
      assert rest[k] in multiset(rest);
      if rest[k] != x {
        assert rest[k] in multiset(s[1..]);
        assert rest[k] in s[1..];
        assert s == [s[0]] + s[1..];
        SortedHeadLeast(o, s, rest[k]);
      }
    }
  }

  /** Two sorted arrangements of the same non-empty multiset start with the same name. */
  lemma SortedHeads(o: Order, a: seq<string>, b: seq<string>)
    requires Sorted(o, a) && Sorted(o, b) && multiset(a) == multiset(b) && a != []
    ensures b != [] && a[0] == b[0]
  {
    assert a[0] in multiset(b);
    assert a[0] in b;
    assert b[0] in multiset(a);
    assert b[0] in a;
    SortedHeadLeast(o, b, a[0]);
    SortedHeadLeast(o, a, b[0]);
    LessEqAntisymmetric(o, a[0], b[0]);
  }

  lemma MultisetTail<T>(a: seq<T>)
    requires a != []
    ensures multiset(a[1..]) == multiset(a) - multiset{a[0]}
  {
    assert a == [a[0]] + a[1..];
  }

  lemma SortPermutationInvariant(o: Order, a: seq<string>, b: seq<string>)
    requires multiset(a) == multiset(b)
    ensures Sort(o, a) == Sort(o, b)
  {
    SortedUnique(o, Sort(o, a), Sort(o, b));
  }

  /** `"".join(names)`. */
  function Concat(s: seq<string>): string {
    if s == [] then "" else s[0] + Concat(s[1..])
  }

  /** `sep.join(names)`. */
  function JoinWith(sep: string, s: seq<string>): string {
    if |s| == 0 then ""
    else if |s| == 1 then s[0]
    else s[0] + sep + JoinWith(sep, s[1..])
  }

  predicate Distinct<T(==)>(s: seq<T>) {
    forall i, j :: 0 <= i < j < |s| ==> s[i] != s[j]
  }

  /** The names kept by a `TreeSet<String>` fed with `s`, before ordering. */
  function Dedup(s: seq<string>): (r: seq<string>)
    ensures Distinct(r)
    ensures forall x :: x in r <==> x in s
  {
    if s == [] then []
    else if s[0] in s[1..] then Dedup(s[1..])
    else [s[0]] + Dedup(s[1..])
  }

  /** The name Python gives a combined state: its constituents' names sorted and concatenated. */
  function CombinedName(names: seq<string>): string {
    Concat(Sort(CodePoint, names))
  }

  /**
   * The name Java gives a combined state: the names collected in a TreeSet (duplicates
   * collapse), concatenated in UTF-16 order.
   */
  function TreeSetName(names: seq<string>): string {
    Concat(Sort(Utf16, Dedup(names)))
  }

  /** The combined name depends only on which names are combined, not on the order they were discovered in. */
  lemma CombinedNameOrderIndependent(a: seq<string>, b: seq<string>)
    requires multiset(a) == multiset(b)
    ensures CombinedName(a) == CombinedName(b)
  {
    SortPermutationInvariant(CodePoint, a, b);
  }

  lemma DistinctMultiset<T>(a: seq<T>, b: seq<T>)
    requires Distinct(a) && Distinct(b)
    requires forall x :: x in a <==> x in b
    ensures multiset(a) == multiset(b)
  {
    forall x ensures multiset(a)[x] == multiset(b)[x] {
      DistinctCount(a, x);
      DistinctCount(b, x);
    }
  }

  lemma {:induction false} DistinctCount<T>(a: seq<T>, x: T)
    requires Distinct(a)
    ensures multiset(a)[x] == if x in a then 1 else 0
  {
    if a != [] {
      assert a == [a[0]] + a[1..];
      DistinctCount(a[1..], x);
    }
  }

  /** A string of characters up to U+FFFF, each one UTF-16 code unit. */
  predicate Bmp(s: string) {
    forall i :: 0 <= i < |s| ==> s[i] as int < 0x1_0000
  }

  lemma {:induction false} BmpUnits(s: string)
    requires Bmp(s)
    ensures Units(Utf16, s) == Units(CodePoint, s)
    decreases |s|
  {
    if s != [] {
      assert Bmp(s[1..]);
      BmpUnits(s[1..]);
    }
  }

  /** On names up to U+FFFF the two orders sort alike. */
  lemma BmpSorted(s: seq<string>)
    requires forall i :: 0 <= i < |s| ==> Bmp(s[i])
    requires Sorted(Utf16, s)
    ensures Sorted(CodePoint, s)
  {
    forall i, j | 0 <= i < j < |s| ensures LessEq(CodePoint, s[i], s[j]) {
      BmpUnits(s[i]);
      BmpUnits(s[j]);
    }
  }

  /**
   * On distinct names up to U+FFFF, Java's TreeSet naming and Python's sorted naming agree
   * (OrdersDiffer shows they need not agree above U+FFFF).
   */
  lemma TreeSetNameAgrees(names: seq<string>)
    requires Distinct(names)
    requires forall i :: 0 <= i < |names| ==> Bmp(names[i])
    ensures TreeSetName(names) == CombinedName(names)
  {
    DistinctMultiset(Dedup(names), names);
    var j := Sort(Utf16, Dedup(names));
    forall i | 0 <= i < |j| ensures Bmp(j[i]) {
      assert j[i] in multiset(j);
      assert j[i] in names;
    }
    BmpSorted(j);
    SortedUnique(CodePoint, j, Sort(CodePoint, names));
  }

  /**
   * U+1F600 (the UTF-16 units D83D DE00) and U+FF41: Python sorts U+FF41 first, Java's TreeSet
   * puts U+1F600 first.
   */
  lemma OrdersDiffer()
    ensures CombinedName(["\U{1F600}", "\U{FF41}"]) == "\U{FF41}\U{1F600}"
    ensures TreeSetName(["\U{1F600}", "\U{FF41}"]) == "\U{1F600}\U{FF41}"
  {
    var a, b := "\U{1F600}", "\U{FF41}";
    var ab, bs: seq<string> := [a, b], [b];
    assert ab[1..] == bs;
    assert Sort(CodePoint, bs) == bs by { SortOne(CodePoint, b); }
    assert Sort(Utf16, bs) == bs by { SortOne(Utf16, b); }
    assert !Less(CodePoint, a, b) by { CodePointUnits(); }
    assert Less(Utf16, a, b) by { Utf16Units(); }
    assert Sort(CodePoint, ab) == [b, a] by { InsertAfter(CodePoint, a, b); }
    assert Dedup(ab) == ab by { DedupPair(a, b); }
    assert Sort(Utf16, ab) == ab;
    assert Concat([b, a]) == b + a && Concat(ab) == a + b;
  }

  lemma SortOne(o: Order, x: string)
    ensures Sort(o, [x]) == [x]
  {
    assert [x][1..] == [];
  }

  lemma InsertAfter(o: Order, x: string, y: string)
    requires x != y && !Less(o, x, y)
    ensures Insert(o, x, [y]) == [y, x]
  {
    var ys: seq<string> := [y];
    assert ys[1..] == [];
  }

  lemma CodePointUnits()
    ensures Units(CodePoint, "\U{1F600}") == [0x1F600]
    ensures Units(CodePoint, "\U{FF41}") == [0xFF41]
  {
  }

  lemma Utf16Units()
    ensures Units(Utf16, "\U{1F600}") == [0xD83D, 0xDE00]
    ensures Units(Utf16, "\U{FF41}") == [0xFF41]
  {
  }

  lemma DedupPair(a: string, b: string)
    requires a != b
    ensures Dedup([a, b]) == [a, b]
  {
    var ab, bs: seq<string> := [a, b], [b];
    assert ab[1..] == bs && bs[1..] == [];
    assert Dedup(bs) == [b] + Dedup([]);
    assert a !in bs;
  }


  ghost function Powerset<T>(s: set<T>): set<set<T>> {
    set x: set<T> | x <= s
  }

  /** Some enumeration of a finite set, without repetition. */
  ghost function SetToSeq(s: set<string>): (r: seq<string>)
    ensures Distinct(r)
    ensures forall x :: x in r <==> x in s
  {
    if s == {} then []
    else
      var x :| x in s;
      [x] + SetToSeq(s - {x})
  }

  /**
   * Every name a subset construction over states named from `names` can produce:
   * the names themselves and the combined name of every subset.
   */
  ghost function NameUniverse(o: Order, names: set<string>): set<string> {
    names + set S | S in Powerset(names) :: Concat(Sort(o, SetToSeq(S)))
  }

  /** The combined name, under order o, of distinct names drawn from `names` is in the universe. */
  lemma SortedNameInUniverse(o: Order, ns: seq<string>, names: set<string>)
    requires Distinct(ns)
    requires forall x :: x in ns ==> x in names
    ensures Concat(Sort(o, ns)) in NameUniverse(o, names)
  {
    var S := set x | x in ns;
    assert S in Powerset(names);
    DistinctMultiset(SetToSeq(S), ns);
    SortPermutationInvariant(o, SetToSeq(S), ns);
  }

  lemma CombinedNameInUniverse(ns: seq<string>, names: set<string>)
    requires Distinct(ns)
    requires forall x :: x in ns ==> x in names
    ensures CombinedName(ns) in NameUniverse(CodePoint, names)
  {
    SortedNameInUniverse(CodePoint, ns, names);
  }

  lemma TreeSetNameInUniverse(ns: seq<string>, names: set<string>)
    requires forall x :: x in ns ==> x in names
    ensures TreeSetName(ns) in NameUniverse(Utf16, names)
  {
    SortedNameInUniverse(Utf16, Dedup(ns), names);
  }
}
